/** What several parts of the model use. */
module Basics {

  datatype Option<+T> = None | Some(value: T)

  type byte = x: int | 0 <= x < 256

  /** The characters of a word, without the null that ends it. */
  type Word = seq<int>
}
