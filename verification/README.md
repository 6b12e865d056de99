# A verified model of csh, ed and dd

This project models parts of the 1992 BSD userland (`bin/csh`, `bin/ed`, `bin/dd`) in Dafny and proves what they
promise. Code that changes objects, arrays or buffers is modelled by classes and methods with the source's loops; each
is proved against a function or a relation that says what is meant, and the properties of these are proved as lemmas.

| files | what they model |
|---|---|
| `VarOrder`, `VarTree`, `VarBalance`, `VarMap`, `VarTable` | csh's variables: an AVL tree with parent links and a header, as nodes on the heap |
| `EdStore`, `EdCipher`, `EdRuns` | ed's temporary file behind a cache of two buffers, the rotor cipher of -x, and whole runs |
| `EdPattern`, `EdRegexec`, `EdSyntax`, `EdCompile` | ed's regular expressions: what they mean, how they read, the compiler and the matcher |
| `EdMeaning` | which lines they find, by the characters that they are written with |
| `EdLines`, `EdCopy` | ed's line array: moving, copying, appending and deleting in place |
| `DdSpec`, `DdStream` | dd's record conversions over any reads and writes (section 4.16 of IEEE Std 1003.2-1992) |
| `JobRing`, `JobTable` | csh's job table |
| `BraceSpec`, `GlobBrace`, `BraceText` | csh's brace expansion, and what words with braces stand for, by their characters |
| `GlobPattern`, `GlobMatch`, `GlobMeaning`, `GlobText` | csh's pattern matcher, what patterns mean to it, what they mean usually, and what they take, by their characters |
| `ExprNumber`, `ExprSpec`, `ExprEval`, `ExprMeaning`, `ExprFormula` | csh's expressions, and what they compute on numbers |
| `DirSpec`, `DirCanon`, `DirMeaning` | csh's paths in normal form, and where they lead |
| `DirStack` | csh's directory stack, a ring of nodes linked both ways |
| `ParseCommand`, `ParseSyntax` | csh's parser |
| `ParseYield`, `ParseRedirect`, `ParseGrammar` | the words, the shape and the redirections of its trees, and the grammar that it reads exactly |
| `ExecHash`, `LexInput` | csh's hash filter for commands, and its input when it can be positioned |
| `Basics` | what several of these use |

`dafny verify dfyconfig.toml` checks everything.

What lies outside comes in as a parameter: how much a read or a write transfers, what `wait3` tells, the numbers that
`crinit` draws, the clock that cancels a key, directory listings and which files are commands, what `chdir` says of a
directory, what a pattern says of the name of a variable, file name expansion and the other answers that an expression
asks for, and the table of keywords. `error` and `stderror` are error results.

## Where the code does not keep its promise

- `init` of ed with -x: if the first byte of the key made from the clock comes out null, the cipher tables stay as
  they were, blank at first, and text is lost. `EdStore.LineFile.Init` has the exact condition; `EdStore.BlankTables`,
  `EdStore.LostThere`, `EdStore.LineFile.GetLost` and `EdRuns.LostRun` tell what is read instead of a line.
- `gdelete` leaves the same lines as deleting them one by one, but not the same current line if exactly one line was
  marked: `EdLines.GdeleteAgrees` has the exact condition.
- `rdelete` reads behind the line array when the last line goes and the array is full: `EdLines.LineTable.Rdelete`.
- `append` moves the line array when it grows, and adjusts `dot` and `dol`; `getcopy` goes on reading the lines to copy
  through the old `addr1`. `EdCopy.Copy` has the exact condition, `EdCopy.StaleRun` a run.
- csh's `||` and `&&` do not spare the second operand every error: all its words are expanded, and the ones that stand
  by themselves, or directly in a shift, `!` or `~`, have to be numbers. `ExprMeaning.SpareExactly` and
  `ExprMeaning.ExprMeans` have the exact condition, `ExprMeaning.SkippedOperandFails` and
  `ExprMeaning.SkippedWordFails` are examples.
- csh's pattern matcher never tries an empty rest behind a star, so that two stars at the end ask for a character, and
  it takes a circumflex behind a star for a negation. `GlobMeaning.UsualExactly` has the exact condition,
  `GlobMeaning.TwoStarsMiss` and `GlobMeaning.CaretNegates` are examples. A negated class accepts the end of the
  string, and the matcher goes on behind it: `GlobMeaning.ClassTakesEnd` is an example, `GlobPattern.NeverErrs` has
  the exact condition, and `GlobMeaning.DecideExactly` joins the two.
- csh's parser ends because `alias`, which runs before it, stops a text in which a parenthesis is closed that has not
  been opened; `ParseSyntax.GroupWithoutEnd` shows what would happen otherwise. The parser's methods ask for a text
  without such a parenthesis.
- csh's parser passes over any word that begins with `&`, also `&&`, where a list may begin, so that `a ; && b` is
  `a ; b`; and it lets the output of a command in front of `|&` go to a file, which it does not in front of `|`:
  `ParseGrammar.TextReads`, by the definitions of `MoreG` and `Right`.
- `dgoto` starts behind the current directory and takes that to be in normal form. But `dcanon` leaves `/.` at the
  root, and `cd` without an argument and `dinit` take the home directory as it is: `DirSpec.FromFrontExactly` has the
  exact condition, `DirSpec.DotAtRootStays` and `DirSpec.SlashAtEndStays` are examples. From a relative home directory
  csh aborts: `DirCanon.Dgoto`.
- `dcanon` looks one cell behind the terminator after a slash at the end, and `dgoto` has no such cell.
  `DirCanon.Dgoto` and `DirSpec.StraightExactly` tell for which paths.
- csh's hash filter passes over commands in a directory that can be searched but not listed, and `doexec` over `.` and
  `..`: `ExecHash.HashedExactly` and `ExecHash.TriedExactly` have the exact condition, `ExecHash.UnlistedMissed` and
  `ExecHash.DotMissed` are examples.
- dd counts a line that just fits its record, and a last line that is not ended, among the truncated records:
  `DdSpec.CountedExactly`.
- dd's blocking loses nothing exactly on the text that `DdSpec.BlockUnblock` describes.

## What is taken for granted

- Processes have different pids as long as their jobs are not flushed, and `wait3` tells only of processes that are
  not known to csh or run or are stopped.
- A job that `psavejob` has put aside is not flushed before `prestjob`: `JobTable.JobTable.Prestjob`.
- The commands that an expression runs do not change what its later words mean; `run` is a function of the words.
- The path and its directories do not change between `dohash` and a search.
- Keywords are words that could be anything else as well: no operators, parentheses or redirections (`ParseYield`).

## Model

| member | source | states |
|---|---|---|
| `VarOrder.CompareIsTotalOrder` | bin/csh/str.c:276-295 | The comparison of names, with signed characters, is a total order: exactly one of equal, before, after, and transitive |
| `VarOrder.StrcmpExactly` | bin/csh/str.c:276-295 | A name compares as less exactly if at the first place where the two differ it has the smaller character, as a signed number, or has ended |
| `VarOrder.LessExactly` | bin/csh/set.c:449-464 | That is the order of the trees, but that a first character decides at once, an empty name being zero there |
| `VarTree.RebalanceRestores` | bin/csh/set.c:710-808 | One pass through the switch on a node whose factor is stale by one restores exact factors in the whole subtree, and the factor of the new root says exactly whether the height changed |
| `VarTree.RebalanceKeeps` | bin/csh/set.c:710-808 | The same pass keeps the set of nodes and the order of the bindings |
| `VarTree.AvlIsShallow` | bin/csh/set.c:449-464 | A tree of height h with exact factors holds at least Fib(h+2)-1 bindings |
| `VarBalance.RotateRightNodes` | bin/csh/set.c:680-686 | The right rotation on linked nodes, parent links included, is the rotation of the tree they lay out |
| `VarBalance.RotateLeftNodes` | bin/csh/set.c:687-692 | The left rotation likewise |
| `VarBalance.RotateRightThenLeft` | bin/csh/set.c:714-808 | The double rotation to the left, on linked nodes |
| `VarBalance.RotateLeftThenRight` | bin/csh/set.c:714-808 | The double rotation to the right |
| `VarBalance.RebalanceNodes` | bin/csh/set.c:714-808 | The switch of one turn of the loop changes the linked nodes to the rebalanced tree |
| `VarBalance.StepConsistent` | bin/csh/set.c:714-808 | One turn of the loop leaves a path and a subtree whose factors are exact up to the height change still due, and keeps the nodes and the order |
| `VarBalance.BalanceStep` | bin/csh/set.c:714-808 | One turn of the loop on the heap refines that step and tells whether the change has been absorbed |
| `VarBalance.Balance` | bin/csh/set.c:714-808 | From any node whose side has grown or shrunk by one, the loop leaves a tree below the header with exact factors, correct parent links, the same nodes and the same order of bindings |
| `VarTable.VarTable.constructor` | bin/csh/set.c:449-464 | A header without a tree stands for the empty map |
| `VarTable.VarTable.Adrof1` | bin/csh/set.c:449-464 | Finds the binding of a name exactly if there is one, in at most as many turns as the tree is high |
| `VarTable.VarTable.FindLink` | bin/csh/set.c:503-529 | The walk of setq ends at the node with the name, or at the empty link where the name belongs |
| `VarTable.VarTable.SetVec` | bin/csh/set.c:503-529 | Overwriting a value changes the map at that one name and nothing else |
| `VarTable.VarTable.InsertAt` | bin/csh/set.c:503-529 | A new node in an empty link, and the tree rebalanced from there, add one binding; search order, exact factors and links hold again |
| `VarTable.VarTable.Setq` | bin/csh/set.c:503-529 | The map is updated at exactly one name and the tree is valid again; a node is allocated exactly if the name was not bound |
| `VarTable.VarTable.Predecessor` | bin/csh/set.c:578-619 | Left once and right to the end leads to a node without a right child, in the subtree of the node to be removed |
| `VarTable.VarTable.CopyUp` | bin/csh/set.c:578-619 | Copying the predecessor's binding up changes that one node of the layout |
| `VarTable.VarTable.CutOut` | bin/csh/set.c:578-619 | Cutting out a node with at most one child and rebalancing from its parent leaves a valid tree with every other binding, in order |
| `VarTable.VarTable.CutPredecessor` | bin/csh/set.c:578-619 | The case of two children removes the upper node's name and frees the predecessor's node |
| `VarTable.VarTable.CutSingle` | bin/csh/set.c:578-619 | The case of at most one child removes the node and its name |
| `VarTable.VarTable.Unsetv1` | bin/csh/set.c:578-619 | Removes exactly the name of the node from the map; the tree is valid again and has exactly one node less, that one unless it has two children |
| `VarTable.VarTable.Madrof` | bin/csh/set.c:433-447 | Finds the first binding of a subtree, in the order of names, that the pattern takes or fails on, or that it takes none |
| `VarTable.VarTable.UnsetMatching` | bin/csh/set.c:558-560 | The inner loop ends and removes exactly the names that match; if the pattern fails on a name, exactly those in front of the first such name. It counts none exactly if nothing goes |
| `VarTable.VarTable.Unset1` | bin/csh/set.c:550-565 | Removes exactly the names that match one of the patterns; or comes to the first pattern that fails on a name that is left, and stops at that name |
| `VarTable.VarTable.Leftmost` | bin/csh/set.c:810-844 | The walk to the left end of a subtree |
| `VarTable.VarTable.ClimbOut` | bin/csh/set.c:810-844 | Climbing by parent links leaves every subtree that has been listed, or ends at the header when all have been |
| `VarTable.VarTable.Plist` | bin/csh/set.c:810-844 | The walk without a stack lists every binding once, each name in front of all later ones by the first character in which they differ, and ends |
| `VarMap.RestRemoves` | bin/csh/set.c:578-619 | Replacing a node with one empty child by its other child removes its binding from the map |
| `VarMap.GraftRemoves` | bin/csh/set.c:578-619 | Moving the predecessor's binding up and cutting its node out removes the upper node's binding and keeps the order |
| `VarMap.Inserted` | bin/csh/set.c:503-529 | A new node where its name belongs adds one binding to the map and keeps the order |
| `EdCipher.EncTwice` | bin/ed/ed.c:1689-1716 | For good tables a byte is restored by a second pass at the same offset, and none stands for itself |
| `EdCipher.EncIs` | bin/ed/ed.c:1689-1716 | At offset n a byte goes through the first table n places on, through the third n/256 places on, and back through the second, modulo 256 throughout |
| `EdCipher.EncAllTwice` | bin/ed/ed.c:1689-1716 | Enciphering a buffer twice from the same offset is the identity |
| `EdCipher.EncAllSplit` | bin/ed/ed.c:1689-1716 | Enciphering in pieces with the offset carried on is enciphering the whole |
| `EdCipher.CrBlock` | bin/ed/ed.c:1689-1716 | The loop with its two rotor positions computes the byte for every offset; other bytes stay |
| `EdCipher.AnotherFree` | bin/ed/ed.c:1785-1808 | If a slot has no partner when its turn comes, another slot below it is free, by parity |
| `EdCipher.Probe` | bin/ed/ed.c:1785-1808 | The probing ends at the first free slot at or behind the place that is drawn, going round; that is another slot than the current one, and nothing is divided by zero |
| `EdCipher.Reset` | bin/ed/ed.c:1785-1808 | The first loop leaves the identity permutation and no pairs |
| `EdCipher.Exchange` | bin/ed/ed.c:1785-1808 | Exchanging two entries keeps t1 a permutation |
| `EdCipher.PairedKeeps` | bin/ed/ed.c:1785-1808 | Pairing two free slots keeps the pairing an involution without fixed points on the slots done |
| `EdCipher.Pair` | bin/ed/ed.c:1785-1808 | The two assignments to t3 are such a pairing |
| `EdCipher.Turn` | bin/ed/ed.c:1785-1808 | One turn of the loop over the slots: the entry of the slot is exchanged with the one that the low byte of the drawn number, modulo the slots left, tells; and the slot, if free, is paired with the first free one that the next byte leads to |
| `EdCipher.Invert` | bin/ed/ed.c:1785-1808 | The last loop makes t2 the inverse of t1 |
| `EdCipher.CrInit` | bin/ed/ed.c:1749-1808 | From the identity, the first table comes by the exchange of each turn, and from no pairs the third by the pairing of each turn, as the drawn numbers tell; the first is a permutation, the second its inverse, and the third an involution without fixed points. With a null key the tables are left alone |
| `EdCipher.SameShuffle` | bin/ed/ed.c:1785-1808 | Two keys make the same first table exactly if in every turn i the low bytes that are drawn agree modulo 256 - i |
| `EdCipher.LastEntry` | bin/ed/ed.c:1785-1808 | Entry 255 of the first table is the first byte drawn |
| `EdCipher.EntryStays` | bin/ed/ed.c:1785-1808 | An entry that has had its turn stays |
| `EdCipher.SamePairs` | bin/ed/ed.c:1785-1808 | If the next bytes agree, the third tables do |
| `EdCipher.OneFirstFree` | bin/ed/ed.c:1785-1808 | There is only one first free slot |
| `EdStore.AddressSplit` | bin/ed/ed.c:943-996 | A block number and an offset taken from an address are those of the byte it counts |
| `EdStore.Store.FillInput` | bin/ed/ed.c:943-996 | The input buffer's share of getblock keeps every block as the cache and the disk present it |
| `EdStore.Store.WriteOutput` | bin/ed/ed.c:998-1006 | The output buffer goes to its block on disk, enciphered if need be |
| `EdStore.Store.FlushOutput` | bin/ed/ed.c:943-996 | The output buffer goes out and stands for the next block; what comes back of it has been enciphered twice, and every other block is presented as before |
| `EdStore.Store.GetBlock` | bin/ed/ed.c:943-996 | The buffer returned holds the addressed byte; the two-buffer cache presents the same file as before, but for the cipher, twice, on a block that goes out |
| `EdStore.Store.AgainSame` | bin/ed/ed.c:1689-1716 | Without -x, or with good tables, what goes out comes back the same |
| `EdStore.Store.Reset` | bin/ed/ed.c:1008-1030 | After init the cache presents an empty file; with -x and a first key byte that is not null the tables are good, and otherwise they are the ones from before |
| `EdStore.Store.CopyOut` | bin/ed/ed.c:914-940 | The loop of putline appends the line and a null to the file and leaves all earlier bytes |
| `EdStore.Store.CopyIn` | bin/ed/ed.c:896-911 | The loop of getline copies exactly the line at its address, across block boundaries, and leaves the file |
| `EdStore.LineUnits` | bin/ed/ed.c:914-940 | The next address is even, counts the rounded-up line, and stays within the file if the line does |
| `EdStore.LineFile.Init` | bin/ed/ed.c:1008-1030 | Starts with no lines; the file can be used exactly without -x, or if -x is given and the first key byte is not null, or if the tables are good from before |
| `EdStore.LineFile.PutLine` | bin/ed/ed.c:914-940 | Fails exactly if the file would get too long; otherwise the line is stored under a fresh address, which is where the file ended, no other line changes, and the next address is behind it; the cipher stays as it is |
| `EdStore.LineFile.GetLine` | bin/ed/ed.c:896-911 | In a file that can be used, an address gives back exactly the text stored under it, with or without its mark bit |
| `EdStore.LineFile.GetText` | bin/ed/ed.c:896-911 | In any file, what is read at an address is the text there, once what has gone out has been enciphered twice |
| `EdStore.BlankTables` | bin/ed/ed.c:1689-1716 | With blank tables, what a byte is enciphered to depends on its place alone |
| `EdStore.LostThere` | bin/ed/ed.c:943-996 | So every text that has gone out is presented as the same bytes, which count down to the next multiple of 256 |
| `EdStore.LineFile.GetLost` | bin/ed/ed.c:896-911 | With blank tables, an address whose block has gone out gives back that, whatever line was stored there |
| `EdRuns.Replay` | bin/ed/ed.c:896-940 | In a file that can be used, any run of putline and getline, in any order, gives what it should: every line that there was room for comes back as it was put |
| `EdRuns.Session` | bin/ed/ed.c:1008-1030 | So does every run of ed from its start, without -x or with a key whose first byte is not null |
| `EdRuns.PutAll` | bin/ed/ed.c:914-940 | Lines put one after the other: how many there is room for, and the places they come to |
| `EdRuns.LostRun` | bin/ed/ed.c:1810-1825 | A run of ed -x with a first byte that is null: of every line whose block has gone out only what its place makes comes back, whatever the lines are |
| `EdPattern.MatchEndSound` | bin/ed/ed.c:1484-1589 | The end that the longest-first search finds is the end of a match |
| `EdPattern.MatchEndComplete` | bin/ed/ed.c:1484-1589 | If there is any match from a place, that search succeeds |
| `EdPattern.MatchEndDecides` | bin/ed/ed.c:1484-1589 | It succeeds exactly if the pattern matches something there |
| `EdPattern.MatchEndIsGreediest` | bin/ed/ed.c:1484-1589 | Of all matches from a place it finds the one that prefers longer runs, the first star's most |
| `EdRegexec.CClass` | bin/ed/ed.c:1604-1616 | Membership in a class, negated or not; a null is in none |
| `EdRegexec.Test` | bin/ed/ed.c:1484-1589 | The instruction for one atom accepts exactly the characters that fit it |
| `EdRegexec.Advance` | bin/ed/ed.c:1484-1589 | Running the byte code of a pattern gives exactly the end of the longest-first search |
| `EdRegexec.AdvanceStar` | bin/ed/ed.c:1484-1589 | The backtracking of a star gives the first success among the run ends, the longest first |
| `EdRegexec.FirstChar` | bin/ed/ed.c:1433-1482 | The first-character check passes over no place where there is a match |
| `EdRegexec.Search` | bin/ed/ed.c:1433-1482 | Both search loops find the leftmost place with a match |
| `EdRegexec.Execute` | bin/ed/ed.c:1433-1482 | Succeeds exactly if the pattern occurs; loc1 is the leftmost place, loc2 the end of the greediest match there |
| `EdCompile.CompileClass` | bin/ed/ed.c:1304-1431 | The loop over a class stores exactly the characters it reads as, or fails |
| `EdCompile.EmitStar` | bin/ed/ed.c:1304-1431 | Setting the star bit stars the last item and nothing else |
| `EdCompile.CodedEncodes` | bin/ed/ed.c:1304-1431 | Code built from the front encodes the pattern read from the front |
| `EdCompile.CompileTurn` | bin/ed/ed.c:1304-1431 | One turn keeps: code so far and text to come make up the whole pattern |
| `EdCompile.CompileLoop` | bin/ed/ed.c:1304-1431 | Compiles exactly if the text reads as a pattern whose code fits the buffer, and then the code encodes it |
| `EdCompile.Expression.Compile` | bin/ed/ed.c:1304-1431 | An empty text keeps the expression there is and fails if there is none; a failure leaves none; a circumflex anchors |
| `EdCompile.Expression.Find` | bin/ed/ed.c:1433-1482 | The kept expression run on a line |
| `EdCompile.CompileAndFind` | bin/ed/ed.c:1304-1482 | A text compiled and run finds something exactly if what it reads as occurs in the line, leftmost and greediest |
| `EdMeaning.RegexFinds` | bin/ed/ed.c:1304-1589 | For every expression that is written from characters, escaped characters, periods, classes, stars, a circumflex and a dollar: what it reads as matches exactly the stretches that it stands for, character by character, and occurs in a line exactly if there is one |
| `EdMeaning.MatchesExactly` | bin/ed/ed.c:1484-1589 | Pieces match a stretch exactly if that can be cut up so that each piece takes its part |
| `EdMeaning.ClassFinds` | bin/ed/ed.c:1388-1421 | [cs] finds a line exactly if it has one of the characters cs, and [^cs] exactly if it has another |
| `EdMeaning.SpanFinds` | bin/ed/ed.c:1399-1414 | [x-y] finds a line exactly if it has a character from x to y |
| `EdMeaning.StretchFinds` | bin/ed/ed.c:1304-1482 | Plain or escaped characters find a line exactly if they are a stretch of it; with a circumflex the one that begins it, with a dollar the one that ends it |
| `EdMeaning.PeriodsFind` | bin/ed/ed.c:1497-1500 | n periods find a line exactly if it has n characters |
| `EdMeaning.StarMatches` | bin/ed/ed.c:1561-1587 | c* matches exactly the runs of c, also empty ones |
| `EdMeaning.StarsFind` | bin/ed/ed.c:1376-1380 | Stars in front stand for themselves |
| `EdMeaning.RegexFits` | bin/ed/ed.c:1329-1330 | An expression has room exactly if its code takes less than 128 bytes: two for a character, one for a period, two more than its characters for a class, one for a dollar |
| `EdMeaning.ReadEnds` | bin/ed/ed.c:1331-1374 | A text that reads as an expression ends in front of its delimiter |
| `EdLines.Reverse` | bin/ed/ed.c:1282-1294 | Reverses a stretch of the array and leaves the rest |
| `EdLines.Swap` | bin/ed/ed.c:1239-1280 | Three reversals exchange two neighbouring blocks |
| `EdLines.MovedLine` | bin/ed/ed.c:1239-1280 | Every line has a place of its own after a move: those of the block directly behind the target in their order, without their marks, and the others as they were and in their order; the current line is the last of the block |
| `EdLines.MovedBack` | bin/ed/ed.c:1239-1280 | A move can be undone by a move; a move to where the lines are changes nothing |
| `EdLines.LineTable.TakeMarks` | bin/ed/ed.c:1239-1280 | The marks of the block are removed, and no others |
| `EdLines.LineTable.MoveDown` | bin/ed/ed.c:1239-1280 | Moving towards the front is the rotation, with the current line on the last moved line |
| `EdLines.LineTable.MoveUp` | bin/ed/ed.c:1239-1280 | Moving towards the end likewise |
| `EdLines.LineTable.Move` | bin/ed/ed.c:1239-1280 | Fails exactly for a target in the block; otherwise the rotation; when the text counts as changed |
| `EdLines.LineTable.PutCopies` | bin/ed/ed.c:1267-1274 | The rotation after the append puts the copies behind the target and leaves all other lines |
| `EdCopy.CopyAll` | bin/ed/ed.c:784-815 | append with getcopy: how many lines are copied, and which of three ends comes first |
| `EdCopy.Copy` | bin/ed/ed.c:1239-1304 | The texts of the lines come behind the target once more, and the text of the buffer is otherwise as it was; or the file is full; or, exactly if the line array is too short for all but the last of the copies and the file has room until then, getcopy reads through the old addr1 |
| `EdCopy.CopyAndRead` | bin/ed/ed.c:1239-1304 | Each copy, read back from the file, is the line it is a copy of |
| `EdCopy.StaleRun` | bin/ed/ed.c:1296-1302 | A run that comes to that: of 127 lines the first two are copied |
| `EdLines.LineTable.Insert` | bin/ed/ed.c:784-815 | One line goes behind the current one |
| `EdLines.LineTable.Append` | bin/ed/ed.c:784-815 | The lines go behind line a in order, and the last is the current one, also when the array has to grow |
| `EdLines.CloseUp` | bin/ed/ed.c:862-867 | The copying loop closes up the lines behind; it reads behind the array exactly if the last line is in its last cell and goes |
| `EdLines.LinesStay` | bin/ed/ed.c:784-872 | Where each line is after a deletion and after an insertion |
| `EdLines.LineTable.Rdelete` | bin/ed/ed.c:856-872 | The lines go, and the line behind them, or the last, is the current one; the array is left exactly if the last line goes and the array is full |
| `EdLines.LineTable.Pack` | bin/ed/ed.c:874-894 | The one-pass compaction keeps exactly the unmarked lines seen so far |
| `EdLines.LineTable.Gdelete` | bin/ed/ed.c:874-894 | Exactly the unmarked lines are left; what becomes of the current line |
| `EdLines.OneByOneKeeps` | bin/ed/ed.c:1061-1081 | Deleting the marked lines one by one leaves the unmarked ones, and where the current line then is |
| `EdLines.KeepOne` | bin/ed/ed.c:874-894 | The marked lines are those with an odd number |
| `EdLines.KeepConcat` | bin/ed/ed.c:874-894 | Of lines one after the other what is left is what is left of each |
| `EdLines.GdeleteAgrees` | bin/ed/ed.c:874-894 | The same lines as deleting one by one, and the same current line exactly if not just one line was marked, or it came out the same anyway |
| `DdSpec.BlockConcat` | bin/dd/conv.c:96-172 | Complete lines are blocked independently of what follows |
| `DdSpec.BlockLine` | bin/dd/conv.c:96-172 | One more line, with its newline, makes one more record |
| `DdSpec.LongLine` | bin/dd/conv.c:96-172 | Beyond a record the text of a line no longer matters |
| `DdSpec.UnblockConcat` | bin/dd/conv.c:201-232 | Whole records are unblocked independently of what follows |
| `DdSpec.BlockUnblock` | bin/dd/conv.c:96-252 | Unblocking undoes blocking exactly on text whose lines are ended, fit a record and have no trailing space |
| `DdSpec.UnblockBlock` | bin/dd/conv.c:96-252 | Blocking undoes unblocking on whole records without newlines |
| `DdSpec.CountedExactly` | bin/dd/conv.c:143-171 | The records reported as truncated are never too few, and are the lines longer than a record exactly if no line fills its record and the last one is ended or too long |
| `DdSpec.BlockedLines` | bin/dd/conv.c:96-199 | Blocked, each line is its first bytes, filled up with spaces (32), and so is what follows the last newline (10), unless that is nothing |
| `DdSpec.EveryInput` | bin/dd/conv.c:96-199 | Every input is lines and what follows the last newline |
| `DdSpec.UnblockedRecords` | bin/dd/conv.c:201-252 | Unblocked, each record is a line with its newline (10), and so is what is left behind the last whole one, unless that is nothing |
| `DdSpec.StripExactly` | bin/dd/conv.c:217-224 | What is stripped of a record is spaces (32), and all of those at its end |
| `DdStream.Dd.WriteBlock` | bin/dd/dd.c:320-377 | A block goes out whole, whatever short writes it takes |
| `DdStream.Dd.DdOut` | bin/dd/dd.c:320-377 | Full blocks, or everything, go out in order; the rest moves to the front of the buffer |
| `DdStream.Dd.CopyLine` | bin/dd/conv.c:96-172 | Copies up to a newline or the record size |
| `DdStream.Dd.Toss` | bin/dd/conv.c:96-172 | Tosses up to and including a newline |
| `DdStream.Dd.BlockTurn` | bin/dd/conv.c:96-172 | One turn puts out one record, or finds an unfinished line |
| `DdStream.Dd.TossOn` | bin/dd/conv.c:96-172 | A cut line is tossed across reads |
| `DdStream.Dd.BlockConv` | bin/dd/conv.c:96-172 | After any read, exactly the complete lines have been put out, with the leftover or the cut line remembered |
| `DdStream.Dd.BlockClose` | bin/dd/conv.c:174-192 | An unfinished line becomes a padded record |
| `DdStream.Dd.RunBlock` | bin/dd/dd.c:208-318 | For every split into reads and every pattern of short writes, the output is the blocked input, and the count of truncated records is that of the input |
| `DdStream.Dd.UnblockConv` | bin/dd/conv.c:201-232 | After any read, exactly the whole records have been put out |
| `DdStream.Dd.UnblockClose` | bin/dd/conv.c:234-252 | A short last record makes a line of its own |
| `DdStream.Dd.RunUnblock` | bin/dd/dd.c:208-318 | For every split into reads and every pattern of short writes, the output is the unblocked input |
| `DdStream.Dd.DefConv` | bin/dd/conv.c:53-79 | The one buffer goes out block by block, and no byte is lost or repeated |
| `DdStream.Dd.RunDef` | bin/dd/dd.c:153-162 | Without a conversion the output is the input, and the buffer that setup allocates is never exceeded |
| `JobRing.SetState` | bin/csh/proc.c:111-137 | The old state gives way to the one that wait3 tells: exited with 0, exited otherwise, interrupted by signal 2, killed by another, or stopped; a core is noted |
| `JobRing.Collect` | bin/csh/proc.c:138-147 | The flags of the whole ring together; only marks for timing change |
| `JobRing.MarkReported` | bin/csh/proc.c:154-158 | Exactly the stopped processes of the ring are marked as reported |
| `JobRing.Resume` | bin/csh/proc.c:1089-1100 | Exactly the running and stopped processes of the ring run, in the foreground or not |
| `JobRing.ResumedSound` | bin/csh/proc.c:1089-1100 | Resumed flags tell of one state, running if the process ran or was stopped; it is in the foreground exactly as asked; other flags stay |
| `JobTable.JobTable.Pgetcurr` | bin/csh/proc.c:1178-1194 | The most recent stopped job other than the given and the current one, or else the most recent |
| `JobTable.JobTable.Pclrcurr` | bin/csh/proc.c:414-430 | The job is neither current nor previous; the other keeps its place, and a free place goes to the job that pgetcurr finds |
| `JobTable.JobTable.Leader` | bin/csh/proc.c:391-392 | The search round the ring ends, at the leader |
| `JobTable.JobTable.GiveBack` | bin/csh/proc.c:402-407 | The largest number in use is the largest again |
| `JobTable.JobTable.FlushedJobs` | bin/csh/proc.c:380-408 | Flushing a job keeps: one leader a job, distinct pids, distinct numbers |
| `JobTable.JobTable.Pflush` | bin/csh/proc.c:380-408 | Exactly the processes of the job lose pid and number; the table stays valid, and nothing names the job |
| `JobTable.JobTable.NewIndex` | bin/csh/proc.c:482-497 | One more than the largest number, or the least number not in use; the search ends |
| `JobTable.JobTable.Attach` | bin/csh/proc.c:470-474 | The new process goes to the end of the ring |
| `JobTable.JobTable.JoinedRings` | bin/csh/proc.c:464-475 | Joining a ring keeps all rings closed and apart |
| `JobTable.JobTable.JoinedJobs` | bin/csh/proc.c:464-475 | Joining a job keeps: one leader a job, distinct pids, distinct numbers |
| `JobTable.JobTable.StartedJobs` | bin/csh/proc.c:476-502 | So does starting a job |
| `JobTable.JobTable.Palloc` | bin/csh/proc.c:441-505 | A new process joins the job being built or leads a new one with a new number; the table stays valid |
| `JobTable.JobTable.Settle` | bin/csh/proc.c:153-195 | A job that stops becomes current, one that ends is neither current nor previous; when it is flushed |
| `JobTable.JobTable.Reap` | bin/csh/proc.c:108-195 | What one wait status does to the table, which stays valid, and to the current and the previous job |
| `JobTable.JobTable.Pchild` | bin/csh/proc.c:79-197 | The same, with the search for the process: only its job is touched; its flags tell of the wait status, case by case, and whether a core was left; if no other process of the job runs or has been reported, a job that has stopped becomes current and one that is over is neither current nor previous, and otherwise these stay; no job is flushed while a process of it runs or is stopped |
| `JobTable.JobTable.Pstart` | bin/csh/proc.c:1079-1109 | Stopped processes run again; a job in the background is neither current nor previous |
| `JobTable.JobTable.Pwait` | bin/csh/proc.c:229-242 | Exactly the flushed processes leave the list, in place, and the table stays valid |
| `JobTable.JobTable.Pendjob` | bin/csh/proc.c:624-642 | The next process starts a new job, and none is put aside |
| `JobTable.JobTable.Psavejob` | bin/csh/proc.c:600-606 | The job that is being built is put aside |
| `JobTable.JobTable.Prestjob` | bin/csh/proc.c:612-618 | It goes on being built; the table is valid then exactly if the job has not been flushed in between |
| `JobTable.JobTable.Partition` | bin/csh/proc.c:380-505 | In every valid table the rings partition the processes, and live jobs have different positive numbers up to the largest |
| `JobTable.JobTable.OneLeader` | bin/csh/proc.c:78-195 | Every job that is not flushed has exactly one leader; the current and the previous job are two of them |
| `JobTable.JobTable.OneState` | bin/csh/proc.c:78-195 | A process has exactly one state |
| `BraceSpec.AlternativesMean` | bin/csh/glob.c:126-215 | The alternatives: what is in front, one of the pieces, what is behind; the pieces, joined by commas, make up what is in the braces and cannot be cut further |
| `BraceSpec.FewerBraces` | bin/csh/glob.c:218-282 | Every alternative has fewer braces than the word |
| `BraceSpec.ExpandConcat` | bin/csh/glob.c:218-282 | A list of words expands word by word, the first error counting |
| `BraceSpec.ExpandedStay` | bin/csh/glob.c:218-282 | What a word expands to needs no more expansion |
| `BraceSpec.NothingToDo` | bin/csh/glob.c:218-282 | Words without braces, and the words that are left alone, stay as they are |
| `BraceText.AlternativesAre` | bin/csh/glob.c:126-215 | Words with commas (44) between them in braces (123, 125), each with its own braces and brackets (91, 93) closed, are the alternatives of the word, in order, with the same in front and behind |
| `BraceText.BracesExpand` | bin/csh/glob.c:218-282 | Without further braces, that is what the word expands to; only {} stays |
| `BraceText.BracesMissing` | bin/csh/glob.c:144-166 | A brace without its end is reported by the closing one |
| `BraceText.BracketMissing` | bin/csh/glob.c:144-166 | And a bracket without one, in braces, by the closing bracket |
| `GlobBrace.SkipBrackets` | bin/csh/glob.c:146-154 | Brackets hide what is in them |
| `GlobBrace.Balance` | bin/csh/glob.c:144-166 | The first pass finds the closing brace, or the character that is missing |
| `GlobBrace.Split` | bin/csh/glob.c:168-214 | The second pass stores exactly the alternatives, in a vector that grows as needed |
| `GlobBrace.Globbrace` | bin/csh/glob.c:126-215 | The alternatives of a word, or the missing character |
| `GlobBrace.MoveUp` | bin/csh/glob.c:269-270 | The words behind move up |
| `GlobBrace.Splice` | bin/csh/glob.c:266-274 | A word gives way to its alternatives in the vector |
| `GlobBrace.Widen` | bin/csh/glob.c:254-265 | The vector has room for the alternatives afterwards |
| `GlobBrace.BraceTurn` | bin/csh/glob.c:239-276 | One turn replaces a word, keeps what all the words expand to, and leaves less to do |
| `GlobBrace.Expbrace` | bin/csh/glob.c:218-282 | In place, the words are replaced by exactly what they expand to, in order; or the first missing character is reported. It ends |
| `GlobPattern.DecideMeans` | bin/csh/glob.c:832-886 | For every pattern and string: yes exactly if the string can be cut up as the pattern asks, no exactly if not, unless the matcher comes to a class without an end or behind the string first |
| `GlobMeaning.PlainRead` | bin/csh/glob.c:850-856 | The usual reading, in which a circumflex behind a star is a character, is the reading of the matcher with its negations put back |
| `GlobMeaning.CaretDiffers` | bin/csh/glob.c:853-855 | A pattern with a circumflex behind a star that can be matched in the usual way means something else |
| `GlobMeaning.UsualExactly` | bin/csh/glob.c:850-856 | A pattern has its usual meaning for all strings exactly if it has no circumflex behind a star and does not end in two stars, or matches nothing either way |
| `GlobMeaning.DecideExactly` | bin/csh/glob.c:832-886 | The matcher decides every string in the usual way exactly for the patterns that have their usual meaning and cannot lead it into an error |
| `GlobMeaning.MissedMatch` | bin/csh/glob.c:850-856 | A pattern that ends in two stars misses a string, whatever it matches |
| `GlobPattern.NeverErrs` | bin/csh/glob.c:857-878 | The matcher stays within string and pattern on every string exactly if it can neither be led to a class without an end nor, by something that accepts the end of a string, beyond that |
| `GlobMeaning.JudgeUsual` | bin/csh/glob.c:807-830 | With its braces and a circumflex in front, a pattern whose words are of that kind takes exactly the strings that one of them matches in the usual way, or that none does |
| `GlobMeaning.JudgeNeverErrs` | bin/csh/glob.c:807-830 | A whole pattern reports no error on any string exactly if its braces are complete and none of its words can lead the matcher into one |
| `GlobMeaning.LiteralMatches` | bin/csh/glob.c:879-882 | A word without special characters, or with all of them quoted, matches itself, quoted or not, and nothing else |
| `GlobMeaning.ClassHas` | bin/csh/glob.c:857-873 | A class without hyphens has exactly its characters |
| `GlobMeaning.RangeHas` | bin/csh/glob.c:866-870 | A range has the characters between its bounds; behind an opening bracket a hyphen makes none |
| `GlobText.PatternDecides` | bin/csh/glob.c:807-886 | A pattern that is written from characters, question marks, stars and classes takes exactly the strings that these stand for, character by character, and behind a circumflex the others; no circumflex behind a star, no two stars at the end and no negated class |
| `GlobText.MatchesExactly` | bin/csh/glob.c:832-886 | The usual reading of such a text, with negated classes too, matches exactly these strings |
| `GlobText.StarBetween` | bin/csh/glob.c:850-856 | t*u takes exactly the strings that begin with t and, behind that, end with u |
| `GlobText.MarksTake` | bin/csh/glob.c:879-882 | n question marks take exactly the strings of n characters |
| `GlobMeaning.CaretNegates` | bin/csh/glob.c:853-855 | The pattern *^a takes b, since a circumflex behind a star negates |
| `GlobMeaning.TwoStarsMiss` | bin/csh/glob.c:853-855 | The pattern a** does not take a |
| `GlobMeaning.ClassTakesEnd` | bin/csh/glob.c:857-878 | The pattern [^a] goes on behind the end of an empty string |
| `GlobMatch.Search` | bin/csh/glob.c:861-873 | The loop over a class finds the character exactly if the class has it, or comes to the end of the word, or to a range without an end |
| `GlobMatch.MatchClass` | bin/csh/glob.c:857-878 | What one class says of one character, with a missing bracket |
| `GlobMatch.MatchRest` | bin/csh/glob.c:850-856 | The case of a star: the rest of the pattern is tried from the front, on what is left of the string |
| `GlobMatch.Pmatch` | bin/csh/glob.c:832-886 | The loop decides as the pattern reads |
| `GlobMatch.Gmatch` | bin/csh/glob.c:807-830 | All words that the braces stand for are tried, and a circumflex in front turns the answer round; the recursion ends |
| `ExprNumber.PutnEgetn` | bin/csh/set.c:357-420 | What putn writes, egetn reads, for every integer of 32 bits |
| `ExprNumber.EgetnExactly` | bin/csh/exp.c:679-686 | egetn takes digits (48 to 57), a minus sign (45) and digits, or nothing at all |
| `ExprNumber.EgetnAppend` | bin/csh/set.c:399-420 | One more digit makes ten times the number and the digit, in 32 bits |
| `ExprFormula.PutnDecimal` | bin/csh/set.c:357-397 | putn writes decimal digits, with a minus sign in front |
| `ExprFormula.WrapExactly` | bin/csh/exp.c:337-418 | Kept in 32 bits, a number differs by a multiple of 2 to the power of 32 |
| `ExprFormula.QuotientTruncates` | bin/csh/exp.c:401-411 | Division goes towards zero |
| `ExprEval.Reads0` | bin/csh/exp.c:97-118 | exp0 comes to reading a tree without looking at any value, and evaluating that tree |
| `ExprEval.Reads1` | bin/csh/exp.c:120-141 | exp1 comes to reading a tree without looking at any value, and evaluating that tree |
| `ExprEval.Reads2` | bin/csh/exp.c:143-164 | exp2 comes to reading a tree without looking at any value, and evaluating that tree |
| `ExprEval.Reads2a` | bin/csh/exp.c:166-187 | exp2a comes to reading a tree without looking at any value, and evaluating that tree |
| `ExprEval.Reads2b` | bin/csh/exp.c:189-210 | exp2b comes to reading a tree without looking at any value, and evaluating that tree |
| `ExprEval.Reads2c` | bin/csh/exp.c:212-258 | exp2c comes to reading a tree without looking at any value, and evaluating that tree |
| `ExprEval.Reads3` | bin/csh/exp.c:260-304 | exp3 comes to reading a tree without looking at any value, and evaluating that tree |
| `ExprEval.Reads3a` | bin/csh/exp.c:306-334 | exp3a comes to reading a tree without looking at any value, and evaluating that tree |
| `ExprEval.Reads4` | bin/csh/exp.c:336-371 | exp4 comes to reading a tree without looking at any value, and evaluating that tree |
| `ExprEval.Reads5` | bin/csh/exp.c:373-418 | exp5 comes to reading a tree without looking at any value, and evaluating that tree |
| `ExprEval.Reads6` | bin/csh/exp.c:420-597 | exp6 comes to reading a tree without looking at any value, and evaluating that tree |
| `ExprMeaning.IgnoreInt` | bin/csh/exp.c:97-259 | An expression that evaluates without an error still does so with its value ignored |
| `ExprMeaning.IgnoreSamePlace` | bin/csh/exp.c:97-141 | With IGNORE, an expression that evaluates still does, and stops at the same word |
| `ExprMeaning.SpareExactly` | bin/csh/exp.c:97-141 | An operand can be evaluated with its value ignored exactly if all its words can be expanded, and those that stand by themselves, or directly in a shift, ! or ~, are numbers |
| `ExprMeaning.EvalIsValue` | bin/csh/exp.c:97-259 | Evaluation gives the short-circuit value of the tree exactly if all operands that do not count are of that kind, and fails otherwise |
| `ExprMeaning.ExprMeans` | bin/csh/exp.c:90-118 | expr succeeds exactly if the words read as a tree with a value and every skipped operand is of that kind; the result is the value of the right-associative tree |
| `ExprFormula.FormulaMeans` | bin/csh/exp.c:90-439 | Every formula of numbers, operators and parentheses, written in words, has the value of its operators on integers of 32 bits, each level of operators grouping to the right; or fails if it divides by zero where that counts |
| `ExprFormula.Arithmetic` | bin/csh/exp.c:349-366 | For all numbers, the words a + b, a - b and a * b give the sum, the difference and the product in 32 bits |
| `ExprFormula.Division` | bin/csh/exp.c:386-413 | a / b and a % b give quotient and remainder towards zero, or fail if b is zero |
| `ExprFormula.Comparisons` | bin/csh/exp.c:229-298 | a < b, a > b, a < = b, a > = b, a == b and a != b give one or zero |
| `ExprFormula.Logic` | bin/csh/exp.c:97-331 | So do the or-or and and-and operators; the operators on bits and the shifts are those of the machine |
| `ExprFormula.Negation` | bin/csh/exp.c:430-447 | ! a is one exactly for zero, ~ a is -1 - a |
| `ExprFormula.Grouping` | bin/csh/exp.c:337-418 | a - b - c is a - (b - c), and * binds before + |
| `ExprFormula.Matching` | bin/csh/exp.c:223-250 | =~ and !~ match the word against the pattern, which is not expanded |
| `ExprFormula.Inquiring` | bin/csh/exp.c:497-595 | A minus sign and a letter ask about the file, once its name has been expanded |
| `ExprFormula.Running` | bin/csh/exp.c:461-495 | A command in braces is one exactly if it succeeds |
| `ExprMeaning.SkippedOperandFails` | bin/csh/exp.c:430-439 | The expression that joins 1 and ! x by the or-or operator has a value, but fails: where short circuit is not kept |
| `ExprMeaning.SkippedWordFails` | bin/csh/exp.c:236-256 | So does the one that joins 1 and x |
| `DirSpec.SameFromFront` | bin/csh/dir.c:384-418 | Starting behind a path in normal form gives the same as starting in front of it |
| `DirSpec.CanonicalTwice` | bin/csh/dir.c:665-865 | A path in normal form stays as it is |
| `DirSpec.CanonicalIsProper` | bin/csh/dir.c:665-865 | From a place in normal form, the result has no empty component, dot or double dot, except for a last dot at the root, which stays |
| `DirSpec.CanonicalIsKept` | bin/csh/dir.c:665-865 | What comes of a directory in normal form is in normal form, but for a dot that may come first |
| `DirMeaning.LeadsThere` | bin/csh/dir.c:384-418 | Without symbolic links, if a path leads from a directory to a directory, the normal form that is made of it leads there too |
| `DirSpec.PlaceKept` | bin/csh/dir.c:384-418 | As the current directory it stands for the place that it was meant for |
| `DirSpec.FromFrontExactly` | bin/csh/dir.c:384-418 | Starting behind any absolute current directory gives the same as starting in front of it exactly if all its parts are proper, or the path leads up from all of it, or leads back to its first part, which is a dot as the path ends in one, or is empty |
| `DirSpec.DotAtRootStays` | bin/csh/dir.c:384-418 | The path /. stays, and from there f leads to /./f and not to /f |
| `DirSpec.SlashAtEndStays` | bin/csh/dir.c:348-418 | From a home directory /h/ the path f leads to /h//f and not to /h/f |
| `DirSpec.StraightExactly` | bin/csh/dir.c:672-679 | The paths in which nothing is taken out before a slash at the end: a path in normal form and that slash |
| `DirCanon.MoveDown` | bin/csh/dir.c:669-671 | The copying loops move the rest of the path down |
| `DirCanon.Squeeze` | bin/csh/dir.c:665-671 | Slashes beyond the first are squeezed out |
| `DirCanon.FindSlash` | bin/csh/dir.c:672-679 | The scan for the next slash, beyond the terminator if nothing follows the last slash |
| `DirCanon.CutOff` | bin/csh/dir.c:672-679 | What it finds, when a component begins there |
| `DirCanon.LastSlash` | bin/csh/dir.c:681-685 | A slash at the end goes, unless the path is the root |
| `DirCanon.InnerDot` | bin/csh/dir.c:686-691 | A dot goes |
| `DirCanon.LastDot` | bin/csh/dir.c:692-693 | A last dot goes, but not at the root |
| `DirCanon.BackUp` | bin/csh/dir.c:771-774 | Back to the slash of the component above |
| `DirCanon.InnerUp` | bin/csh/dir.c:771-779 | A double dot takes the component above it away |
| `DirCanon.LastUp` | bin/csh/dir.c:771-783 | So does a last double dot; at the root a slash is left |
| `DirCanon.Turn` | bin/csh/dir.c:665-865 | One turn keeps the normal form in front and what is to come of the rest |
| `DirCanon.Dcanon` | bin/csh/dir.c:665-865 | In place, every absolute path is brought into the stack-based normal form, and the loop ends; the scan leaves the buffer exactly if that has no cell to spare and what is left is in normal form but for a slash at its end |
| `DirCanon.Dgoto` | bin/csh/dir.c:384-418 | A relative path is appended to the current directory, whatever that is called, in a buffer of exactly its size; the result, the paths for which the scan leaves the buffer, and that csh aborts exactly if the current directory is no absolute path |
| `DirStack.PushPop` | bin/csh/dir.c:487-609 | Popping what has been pushed leaves the stack as it was |
| `DirStack.ExchangeTwice` | bin/csh/dir.c:497-512 | Exchanging the upper two twice changes nothing |
| `DirStack.TurnTwice` | bin/csh/dir.c:518-536 | Turning by m and then by n is turning by m + n |
| `DirStack.PushConserves` | bin/csh/dir.c:487-537 | pushd loses no name, and brings in none but that of a new directory |
| `DirStack.PopConserves` | bin/csh/dir.c:572-609 | popd takes away exactly the top or the n-th name |
| `DirStack.CdConserves` | bin/csh/dir.c:336-382 | cd takes away exactly the top, and may bring in one name |
| `DirStack.IndexIs` | bin/csh/dir.c:541-566 | +n, in decimal, is the number n |
| `DirStack.PushdTurns` | bin/csh/dir.c:518-536 | With +n the n-th directory comes to the top, those below it follow, and then those above it |
| `DirStack.PopdTakes` | bin/csh/dir.c:572-609 | With +n the n-th directory goes and those below it move up |
| `DirStack.CdTurns` | bin/csh/dir.c:360-372 | With +n the top goes and the n-th directory comes to the top |
| `DirStack.Turned` | bin/csh/dir.c:559-564 | A ring linked both ways is one from wherever it is entered |
| `DirStack.Unlink` | bin/csh/dir.c:601-602 | Two assignments take a node out of the ring |
| `DirStack.Link` | bin/csh/dir.c:531-534 | A node is put above another |
| `DirStack.Replace` | bin/csh/dir.c:373-379 | A new node takes the place of another |
| `DirStack.Stack.constructor` | bin/csh/dir.c:129-136 | csh starts with one directory |
| `DirStack.Stack.Below` | bin/csh/dir.c:560-561 | One step down the stack goes past the head, and from the last directory to the top |
| `DirStack.Stack.Dfind` | bin/csh/dir.c:542-566 | +n finds the n-th directory, or that the stack is not that deep; anything else is no number |
| `DirStack.Stack.Alone` | bin/csh/dir.c:591-592 | The head is on both sides exactly if there is only one directory |
| `DirStack.Stack.Exchange` | bin/csh/dir.c:506-511 | The upper two are exchanged |
| `DirStack.Stack.Turn` | bin/csh/dir.c:518-536 | The stack is turned |
| `DirStack.Stack.Remove` | bin/csh/dir.c:601-608 | A directory below the top goes |
| `DirStack.Stack.RemoveTop` | bin/csh/dir.c:601-604 | The top goes, and another directory is the current one |
| `DirStack.Stack.Dopushd` | bin/csh/dir.c:487-537 | What pushd does to the stack, or the error, in which case nothing changes |
| `DirStack.Stack.Dopopd` | bin/csh/dir.c:572-609 | What popd does to the stack, or the error; a directory that a process refers to is kept, without links |
| `DirStack.Stack.Dochngd` | bin/csh/dir.c:336-382 | What cd does to the stack, or the error; the same of the directory that goes |
| `DirStack.Stack.Printdirs` | bin/csh/dir.c:201-238 | The loop prints every directory once, from the top |
| `ParseCommand.CountNatural` | bin/csh/parse.c:523-561 | From any place on, the count of the first pass is not negative |
| `ParseCommand.TurnCount` | bin/csh/parse.c:571-652 | A turn of the second pass without an error stores no more than the first pass has counted for it |
| `ParseCommand.FillCount` | bin/csh/parse.c:523-652 | All the words that the second pass stores have been counted |
| `ParseCommand.CountPass` | bin/csh/parse.c:523-561 | The first loop computes the count |
| `ParseCommand.FillPass` | bin/csh/parse.c:562-652 | The second loop never stores beyond the vector, and without an error leaves exactly the words to be stored, ended by a null |
| `ParseSyntax.SimpleGroup` | bin/csh/parse.c:571-658 | In a balanced range the group that is parsed next has both its ends, and is balanced |
| `ParseSyntax.LeftPart` | bin/csh/parse.c:310-476 | What is in front of the first operator of a level has none of it, and is balanced |
| `ParseSyntax.RightPart` | bin/csh/parse.c:310-476 | What is behind is balanced, and has none of the operators of earlier levels |
| `ParseSyntax.Parser.ScanLine` | bin/csh/parse.c:256-283 | The scan of syn0 finds the first & outside of parentheses that does not belong to a redirection or a pipe |
| `ParseSyntax.Parser.Scan` | bin/csh/parse.c:324-460 | The scans of the other levels find the first operator outside of parentheses |
| `ParseSyntax.Parser.Syntax` | bin/csh/parse.c:223-240 | Leading separators are skipped; an empty text gives no tree |
| `ParseSyntax.Parser.Syn0` | bin/csh/parse.c:242-308 | Splits at the first &, hands down balanced ranges only, and reports a parenthesis left open |
| `ParseSyntax.Parser.Syn1` | bin/csh/parse.c:310-349 | Splits at the first ; or newline of a balanced range without & |
| `ParseSyntax.Parser.Syn1a` | bin/csh/parse.c:351-390 | Splits at the first or-or operator of a balanced range without the operators before |
| `ParseSyntax.Parser.Syn1b` | bin/csh/parse.c:392-429 | Splits at the first and-and operator likewise |
| `ParseSyntax.Parser.Syn2` | bin/csh/parse.c:431-476 | Splits at the first pipe likewise, with or without & |
| `ParseSyntax.Parser.Syn3` | bin/csh/parse.c:488-665 | Of a balanced range without operators outside of parentheses, the words and redirections, or the command in parentheses; the errors found |
| `ParseSyntax.WordsArePlain` | bin/csh/parse.c:571-652 | In a command without a keyword that is read without an error, no word is an operator, parenthesis or redirection |
| `ParseSyntax.SimpleIsPlain` | bin/csh/parse.c:488-665 | So are the words of the tree of such a command, of which there is at least one |
| `ParseYield.SimpleYield` | bin/csh/parse.c:488-665 | The words of the tree of a command, or of a subshell with all that is in it, are its words without the redirections and the parentheses |
| `ParseYield.TextYield` | bin/csh/parse.c:223-308 | The same of a list within a text, whatever comes behind it |
| `ParseYield.SyntaxYield` | bin/csh/parse.c:223-240 | Of a text that is read without an error, the words of the tree, from left to right, are the words of the text without operators, redirections and the parentheses of subshells, in order |
| `ParseYield.TextShaped` | bin/csh/parse.c:223-308 | In that tree weaker operators are above stronger ones, every pair of parentheses has a command, and every command at any depth has words, which are plain unless it begins with a keyword |
| `ParseRedirect.RedirectedFiles` | bin/csh/parse.c:604-651 | The output of a command that is read without an error goes to w exactly if w is the file name of a > outside of parentheses, and its input comes from w exactly if w is that of a < |
| `ParseRedirect.RedirectedFlags` | bin/csh/parse.c:568-637 | It appends, takes the diagnostic output along, overwrites or reads on exactly if >>, >&, >! or >&!, and << are there; NoFork exactly in front of a closing parenthesis; nothing in it is in the background |
| `ParseRedirect.FillErrs` | bin/csh/parse.c:571-652 | The second pass finds an error exactly if a redirection has no file name or is at odds with a pipe or parentheses around it, or there is one too many, or one group too many |
| `ParseRedirect.DepthCounts` | bin/csh/parse.c:577-603 | The depth is the number of opening parentheses (40) less that of closing ones (41) |
| `ParseGrammar.TextReads` | bin/csh/parse.c:223-665 | The parser reads a text without an error, and makes this tree of it, exactly if the grammar, stated on the characters of the words, has this tree for it: operators and their order of binding, the parts put into the background, pipes with and without &, redirections, flags, words and subshells |
| `ParseGrammar.LineReads` | bin/csh/parse.c:242-308 | The same of a list with & outside of parentheses: what is in front of the first & is marked as Amp and NoInterrupt, a list being wrapped for that |
| `ParseGrammar.PipesReads` | bin/csh/parse.c:431-476 | And of a pipeline: it has the flag StdErr exactly behind a bar and & |
| `ParseGrammar.SimpleReads` | bin/csh/parse.c:488-665 | And of a simple command or a subshell |
| `ParseGrammar.ErrsExactly` | bin/csh/parse.c:223-665 | So an error is found exactly if the grammar has no tree for the text |
| `ParseGrammar.SpecialExactly` | bin/csh/parse.c:505-523 | A command begins with a keyword if there is one behind nothing but words like else |
| `ParseSyntax.GroupWithoutEnd` | bin/csh/parse.c:653-657 | On the words > ) ( a, which alias stops beforehand, syn3 would hand down a group without an end |
| `ExecHash.OneBit` | bin/csh/exec.c:93-94 | Setting a bit sets that one and no other |
| `ExecHash.CommandTable.HashName` | bin/csh/exec.c:504-512 | The loop computes the hash of a name |
| `ExecHash.CommandTable.SetBit` | bin/csh/exec.c:94 | Of all bits of the table, one is set and no other changes |
| `ExecHash.CommandTable.Dohash` | bin/csh/exec.c:440-478 | Exactly the bits of the names in the directories of the path are set |
| `ExecHash.CommandHasBit` | bin/csh/exec.c:515-557 | A command of an absolute component has its bit set |
| `ExecHash.TriedExactly` | bin/csh/exec.c:196-238 | After dohash the filter makes no difference to what doexec executes exactly if some listed name is hashed to the bit of the command in the component in which the search ends |
| `ExecHash.DoexecSame` | bin/csh/exec.c:196-238 | After dohash the attempts end as without the filter, down to the error reported, if all that is there has been hashed |
| `ExecHash.CommandTable.Doexec` | bin/csh/exec.c:196-238 | The loop makes the attempts that the filter does not pass over, for every path, table and name |
| `ExecHash.FileHasBit` | bin/csh/exec.c:465-476 | A name that has been hashed for a component has its bit set there |
| `ExecHash.HashedExactly` | bin/csh/exec.c:515-557 | After dohash the filter makes no difference to iscommand exactly if some listed name is hashed to the bit of the command in the first component that has it |
| `ExecHash.UnlistedMissed` | bin/csh/exec.c:515-557 | A command in a directory that cannot be listed is not found, if that is all of the path |
| `ExecHash.DotMissed` | bin/csh/exec.c:196-238 | A dot is passed over though it is listed, and what the system has against it is not reported |
| `ExecHash.IscommandSame` | bin/csh/exec.c:515-557 | After dohash the search gives the same place as the plain search from left to right, if all commands have been hashed |
| `ExecHash.CommandTable.Iscommand` | bin/csh/exec.c:515-557 | The loop finds the first component with the command that the filter does not pass over, for every path, table and name |
| `LexInput.Input.constructor` | bin/csh/lex.c:1626-1639 | settell starts with an empty buffer where the kernel is |
| `LexInput.Input.ReadFile` | bin/csh/lex.c:1457-1462 | A read gives any number of characters from where the kernel is, and none exactly at the end |
| `LexInput.Input.Bgetc` | bin/csh/lex.c:1449-1470 | After any seeks and reads of any size, the next character is that of the file at fseekp, or the end of file |
| `LexInput.Input.Bseek` | bin/csh/lex.c:1567-1587 | Seeking keeps the buffer valid |
| `LexInput.Input.ReadOn` | bin/csh/lex.c:1449-1470 | A run of bgetc gives the file from fseekp on, however much each read gives |
| `LexInput.Input.Replay` | bin/csh/lex.c:1449-1587 | Any calls of bgetc and bseek, in any order, give what the file itself would give, however much each read gives |
| `LexInput.Input.ReadAgain` | bin/csh/lex.c:1567-1610 | What is read from a place is read again after btell and bseek, also if the reads then give other amounts |

## Left out

- EdCompile.Expression.Compile: stops at `\(`, `\)` and back-references, so that groups, `locs` and the repeated search of `execute(1)` are not modelled; null characters in an expression are left out too.
- EdStore.LineFile.PutLine: does not model `fchange`, and returns the text behind a newline instead of leaving a pointer to it.
- EdCopy.Copy: stops when `getcopy` reads through a pointer into an array that has been given up; that `realloc` may leave the array where it is is not modelled.
- VarTable.VarTable.InsertAt: gives the new node its value at once, while the source does so after balancing; nothing looks at it in between.
- JobTable.JobTable.Palloc: leaves out the command text, the directory and the times of a process.
- JobTable.JobTable.Pchild: is one turn of the loop over `wait3`; exit codes and messages are left out, and so is what `pprint` does to the marks for timing.
- JobTable.JobTable.Pendjob: leaves out what is printed.
- `pnote`, `pjwait` and `pflushall`: they call `pflush` on a process that is not flushed, which is modelled.
- GlobBrace.Globbrace: does not model the size of the scratch buffer in which an alternative is put together.
- ExprSpec.EvalInt: the bit operators and shifts of the machine are parameters; addition and multiplication wrap at 32 bits.
- DirCanon.Dcanon: symbolic links are ignored, and the part that puts the home directory in is left out.
- DirCanon.Dgoto: takes the variable `cwd` to be what `dset` has made it.
- DdStream.Dd.RunBlock: translation tables, `sync`, `noerror`, `swab`, `count` and statistics other than truncated records are left out; so is the direct path of `bs=`, on which every read is written as it is.
- ParseSyntax.Parser.Syn3: the first error message is not kept, only that there was one.
- ExecHash.CommandTable.Doexec: what comes of executing a file is a parameter; expansion of the command's words and the counts of hits and misses are left out.
- LexInput.Input.Bgetc: input that cannot be positioned, and `btoeof`, which moves the kernel alone.
- GlobMeaning.UsualExactly: leaves out strings with a character that is a quotation mark alone, as do the other lemmas there and `GlobPattern.NeverErrs`.
- GlobMeaning.JudgeUsual: is one way for patterns with braces; one word may take what another misses.
- DirStack.Stack.Dochngd: `chdir` and `dfollow` are parameters; setting the variable `cwd`, `dtilde` and the layout of `dirs` are left out.
- EdMeaning.RegexFinds: leaves out groups, and classes in which a hyphen follows a range directly; those are left to `EdCompile.CompileAndFind`.
- GlobText.PatternDecides: leaves out negated classes and the other patterns that do not have their usual meaning; `GlobText.MatchesExactly` and `GlobMeaning.DecideExactly` have these.
- ExprFormula.FormulaMeans: is about numbers as `putn` writes them; words in other forms are left to `ExprMeaning.ExprMeans`.
- History and alias substitution, `$` expansion, file name completion.
- Signals, terminals, forking and all other input and output.
