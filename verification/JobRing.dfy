/** The processes that csh knows of, and the rings that tie those of one job together (bin/csh/proc.c,
    bin/csh/proc.h). */
module JobRing {

  /** The bits of `p_flags` that matter here; the first six are the states. */
  datatype Flag = Running | Stopped | NExited | AExited | Signaled | Interrupted
                | Notify | Time | Foregnd | Dumped | Reported | PTime | NeedNote

  const STATES: set<Flag> := {Running, Stopped, NExited, AExited, Signaled, Interrupted}

  /** The flags name this state and no other. */
  ghost predicate IsState(f: set<Flag>, s: Flag) {
    s in STATES && f * STATES == {s}
  }

  /** One state, and "reported" only while that is not the last one. */
  ghost predicate Sound(f: set<Flag>) {
    (exists s :: IsState(f, s)) && (Reported in f ==> Running in f || Stopped in f)
  }

  /** Flags that tell of the same state. */
  lemma SoundToo(f: set<Flag>, g: set<Flag>)
    requires Sound(f) && f * STATES == g * STATES && (Reported in g ==> Reported in f || Stopped in f)
    ensures Sound(g)
  {
    var s :| IsState(f, s);
    assert IsState(g, s);
    assert Running in f <==> Running in f * STATES;
    assert Stopped in f <==> Stopped in f * STATES;
    assert Running in g <==> Running in g * STATES;
    assert Stopped in g <==> Stopped in g * STATES;
  }

  /** Flags that name the same states, and tell alike whether a core was left. */
  ghost predicate Alike(f: set<Flag>, g: set<Flag>) {
    f * STATES == g * STATES && (Dumped in f <==> Dumped in g)
  }

  class Process {
    var next: Process?
    var friends: Process
    var flags: set<Flag>
    var index: int
    var pid: int
    var jobid: int
    /** The processes of the job, its leader first. */
    ghost var ring: seq<Process>

    constructor (pid: int, flags: set<Flag>)
      ensures this.pid == pid && this.flags == flags && next == null && friends == this
    {
      this.pid, this.flags, next, friends, index, jobid, ring := pid, flags, null, this, 0, 0, [];
    }
  }

  ghost predicate Distinct<T>(r: seq<T>) {
    r == [] || (r[0] !in r[1..] && Distinct(r[1..]))
  }

  lemma {:induction false} DistinctAt<T>(r: seq<T>, i: nat, j: nat)
    requires Distinct(r) && i < |r| && j < |r|
    ensures r[i] == r[j] ==> i == j
  {
    if i > 0 && j > 0 {
      DistinctAt(r[1..], i - 1, j - 1);
    } else if i != j {
      assert r[if i == 0 then j else i] in r[1..];
    }
  }

  lemma {:induction false} DistinctMore<T>(r: seq<T>, x: T)
    requires Distinct(r) && x !in r
    ensures Distinct(r + [x])
  {
    if r != [] {
      assert (r + [x])[1..] == r[1..] + [x];
      DistinctMore(r[1..], x);
    }
  }

  ghost predicate Circle(r: seq<Process>)
    reads r`friends
  {
    r != [] && forall k {:trigger r[k].friends} :: 0 <= k < |r| ==> r[k].friends == r[if k + 1 < |r| then k + 1 else 0]
  }

  /** A ring with one process more, at its end. */
  lemma CircleMore(r: seq<Process>, x: Process)
    requires r != [] && x.friends == r[0]
    requires forall k {:trigger r[k].friends} :: 0 <= k < |r| ==> r[k].friends == if k + 1 < |r| then r[k + 1] else x
    ensures Circle(r + [x])
  {
    var t := r + [x];
    forall k | 0 <= k < |t| ensures t[k].friends == t[if k + 1 < |t| then k + 1 else 0] {
      if k < |r| {
        assert t[k] == r[k];
      }
    }
  }

  /** The ring as it is met from place i on. */
  function From<T>(r: seq<T>, i: nat): (t: seq<T>)
    requires i < |r|
    ensures |t| == |r| && t[0] == r[i]
  {
    r[i..] + r[..i]
  }

  lemma FromSame<T>(r: seq<T>, i: nat)
    requires i < |r|
    ensures forall p :: p in From(r, i) <==> p in r
  {
    assert r == r[..i] + r[i..];
  }

  lemma FromCircle(r: seq<Process>, i: nat)
    requires i < |r| && Circle(r)
    ensures Circle(From(r, i))
  {
    var n, t := |r|, From(r, i);
    forall k | 0 <= k < n ensures t[k].friends == t[if k + 1 < n then k + 1 else 0] {
      var j := if i + k < n then i + k else i + k - n;
      assert t[k] == r[j];
    }
  }

  const SIGINT := 2

  /** What `wait3` tells. */
  datatype Wait = WStopped(sig: int) | WSignaled(sig: int, core: bool) | WExited(code: int)

  function StateOf(w: Wait): Flag {
    match w
    case WStopped(_) => Stopped
    case WSignaled(sig, _) => if sig == SIGINT then Interrupted else Signaled
    case WExited(code) => if code != 0 then AExited else NExited
  }

  /** The flags tell what the wait status tells, and whether a core was left, now or before. */
  ghost predicate Tells(f: set<Flag>, w: Wait, dumped: bool) {
    && Running !in f
    && (Stopped in f <==> w.WStopped?)
    && (NExited in f <==> w == WExited(0))
    && (AExited in f <==> w.WExited? && w.code != 0)
    && (Interrupted in f <==> w.WSignaled? && w.sig == 2)
    && (Signaled in f <==> w.WSignaled? && w.sig != 2)
    && (Dumped in f <==> dumped || (w.WSignaled? && w.core))
  }

  lemma Cleared(f: set<Flag>)
    requires Sound(f) && (Running in f || Stopped in f)
    ensures (f - {Running, Stopped, Reported}) * STATES == {}
  {
    var s :| IsState(f, s);
    assert Running in f ==> Running in f * STATES;
    assert Stopped in f ==> Stopped in f * STATES;
    forall x ensures x !in (f - {Running, Stopped, Reported}) * STATES {
      assert x in f && x in STATES ==> x in f * STATES;
    }
  }

  lemma Set(f: set<Flag>, s: Flag, more: set<Flag>)
    requires f * STATES == {} && s in STATES && more <= {Dumped} && Reported !in f
    ensures IsState(f + {s} + more, s) && Sound(f + {s} + more)
  {
    var g := f + {s} + more;
    forall x ensures x in g * STATES <==> x == s {
      assert x in f && x in STATES ==> x in f * STATES;
    }
    assert IsState(g, s);
  }

  /** The state of a process that runs or is stopped is replaced. */
  method SetState(pp: Process, w: Wait)
    requires Sound(pp.flags) && (Running in pp.flags || Stopped in pp.flags)
    modifies pp`flags
    ensures Sound(pp.flags) && Tells(pp.flags, w, Dumped in old(pp.flags)) && Reported !in pp.flags
    ensures Foregnd in pp.flags <==> Foregnd in old(pp.flags)
    ensures Notify in pp.flags <==> Notify in old(pp.flags)
  {
    Cleared(pp.flags);
    pp.flags := pp.flags - {Running, Stopped, Reported};
    ghost var f := pp.flags;
    Set(f, StateOf(w), {});
    Set(f, StateOf(w), {Dumped});
    assert f + {StateOf(w)} + {} == f + {StateOf(w)};
    if w.WStopped? {
      pp.flags := pp.flags + {Stopped};
    } else if w.WSignaled? {
      if w.sig == SIGINT {
        pp.flags := pp.flags + {Interrupted};
      } else {
        pp.flags := pp.flags + {Signaled};
      }
      if w.core {
        pp.flags := pp.flags + {Dumped};
      }
    } else if w.code != 0 {
      pp.flags := pp.flags + {AExited};
    } else {
      pp.flags := pp.flags + {NExited};
    }
  }

  lemma {:induction false} Unrepeated<T>(r: seq<T>)
    requires forall i, j :: 0 <= i < j < |r| ==> r[i] != r[j]
    ensures Distinct(r)
  {
    if r != [] {
      var t := r[1..];
      forall i, j | 0 <= i < j < |t| ensures t[i] != t[j] {
        assert t[i] == r[i + 1] && t[j] == r[j + 1];
      }
      Unrepeated(t);
    }
  }

  lemma FromDistinct<T>(r: seq<T>, i: nat)
    requires i < |r| && Distinct(r)
    ensures Distinct(From(r, i))
  {
    var n, t := |r|, From(r, i);
    forall j, k | 0 <= j < k < n ensures t[j] != t[k] {
      var j', k' := if i + j < n then i + j else i + j - n, if i + k < n then i + k else i + k - n;
      assert t[j] == r[j'] && t[k] == r[k'];
      DistinctAt(r, j', k');
    }
    Unrepeated(t);
  }

  /** The ring of pp as it is met from pp on. */
  ghost predicate Round(pp: Process, r: seq<Process>)
    reads r`friends
  {
    Circle(r) && r[0] == pp && Distinct(r)
  }

  /** The turn from the k-th process to the next, or back to the first. */
  lemma Turn(pp: Process, r: seq<Process>, k: nat)
    requires Round(pp, r) && k < |r|
    ensures r[k].friends == pp <==> k + 1 == |r|
    ensures k + 1 < |r| ==> r[k].friends == r[k + 1]
    ensures forall j :: 0 <= j < |r| && r[j] == r[k] ==> j == k
  {
    var k' := if k + 1 < |r| then k + 1 else 0;
    DistinctAt(r, k', 0);
    forall j: nat | j < |r| && r[j] == r[k] ensures j == k {
      DistinctAt(r, j, k);
    }
  }

  /** The flags of all the processes of a job together. Those that have ended and took long are marked. */
  method Collect(pp: Process, slow: set<Process>, ghost r: seq<Process>) returns (jobflags: set<Flag>)
    requires Round(pp, r)
    modifies r`flags
    ensures forall p <- r :: old(p.flags) <= p.flags <= old(p.flags) + {Time}
    ensures forall f :: f in jobflags <==> exists p <- r :: f in p.flags
  {
    jobflags := {};
    var fp := pp;
    ghost var k := 0;
    while true
      invariant k < |r| && fp == r[k] && Round(pp, r)
      invariant forall j :: 0 <= j < k ==> old(r[j].flags) <= r[j].flags <= old(r[j].flags) + {Time}
      invariant forall j :: k <= j < |r| ==> r[j].flags == old(r[j].flags)
      invariant forall f :: f in jobflags <==> exists j :: 0 <= j < k && f in r[j].flags
      decreases |r| - k
    {
      Turn(pp, r, k);
      if PTime !in fp.flags && Running !in fp.flags && Stopped !in fp.flags && fp in slow {
        fp.flags := fp.flags + {Time};
      }
      jobflags := jobflags + fp.flags;
      fp, k := fp.friends, k + 1;
      if fp == pp {
        return;
      }
    }
  }

  /** The stopped processes of a job have been reported. */
  method MarkReported(pp: Process, ghost r: seq<Process>)
    requires Round(pp, r)
    modifies r`flags
    ensures forall p <- r :: p.flags == if Stopped in old(p.flags) then old(p.flags) + {Reported} else old(p.flags)
  {
    var fp := pp;
    ghost var k := 0;
    while true
      invariant k < |r| && fp == r[k] && Round(pp, r)
      invariant forall j :: 0 <= j < k ==>
        r[j].flags == if Stopped in old(r[j].flags) then old(r[j].flags) + {Reported} else old(r[j].flags)
      invariant forall j :: k <= j < |r| ==> r[j].flags == old(r[j].flags)
      decreases |r| - k
    {
      Turn(pp, r, k);
      if Stopped in fp.flags {
        fp.flags := fp.flags + {Reported};
      }
      fp, k := fp.friends, k + 1;
      if fp == pp {
        return;
      }
    }
  }

  /** What `pstart` makes of the flags of a process. */
  function Resumed(f: set<Flag>, foregnd: bool): set<Flag> {
    if Running !in f && Stopped !in f then f
    else if foregnd then f + {Running} - {Stopped} + {Foregnd} else f + {Running} - {Stopped} - {Foregnd}
  }

  /** The stopped processes of a job run again, and it is in the foreground or not. */
  method Resume(pp: Process, foregnd: bool, ghost r: seq<Process>)
    requires Round(pp, r)
    modifies r`flags
    ensures forall p <- r :: p.flags == Resumed(old(p.flags), foregnd)
  {
    var np := pp;
    ghost var k := 0;
    while true
      invariant k < |r| && np == r[k] && Round(pp, r)
      invariant forall j :: 0 <= j < k ==> r[j].flags == Resumed(old(r[j].flags), foregnd)
      invariant forall j :: k <= j < |r| ==> r[j].flags == old(r[j].flags)
      decreases |r| - k
    {
      Turn(pp, r, k);
      if Running in np.flags || Stopped in np.flags {
        np.flags := np.flags + {Running} - {Stopped};
        if foregnd {
          np.flags := np.flags + {Foregnd};
        } else {
          np.flags := np.flags - {Foregnd};
        }
      }
      np, k := np.friends, k + 1;
      if np == pp {
        return;
      }
    }
  }

  lemma ResumedSound(f: set<Flag>, foregnd: bool)
    requires Sound(f)
    ensures Sound(Resumed(f, foregnd)) && Stopped !in Resumed(f, foregnd)
    ensures Running in f || Stopped in f ==> IsState(Resumed(f, foregnd), Running)
    ensures Running in f || Stopped in f ==> (Foregnd in Resumed(f, foregnd) <==> foregnd)
    ensures Running !in f && Stopped !in f ==> Resumed(f, foregnd) == f
    ensures forall x :: x !in {Running, Stopped, Foregnd} ==> (x in Resumed(f, foregnd) <==> x in f)
  {
    if Running in f || Stopped in f {
      Cleared(f);
      var g, h := f - {Running, Stopped, Reported}, Resumed(f, foregnd);
      forall x ensures x in h * STATES <==> x == Running {
        assert x in STATES && x in h && x != Running ==> x in g * STATES;
      }
      assert IsState(h, Running);
    }
  }

  lemma SoundTime(f: set<Flag>, g: set<Flag>)
    requires Sound(f) && f - {Time, PTime, Foregnd} == g - {Time, PTime, Foregnd}
    ensures Sound(g) && Alike(f, g)
    ensures forall s :: s in STATES + {Reported, Notify} ==> (s in f <==> s in g)
  {
    forall s | s in STATES + {Reported, Notify, Dumped} ensures s in f <==> s in g {
      assert s in f <==> s in f - {Time, PTime, Foregnd};
      assert s in g <==> s in g - {Time, PTime, Foregnd};
    }
    assert f * STATES == g * STATES;
    SoundToo(f, g);
  }

  /** Some process of the job has this flag. */
  ghost predicate Some(r: seq<Process>, f: Flag)
    reads r`flags
  {
    exists p <- r :: f in p.flags
  }

  /** The flags of the job, its processes apart from the marks for timing being as they were, and pp being in
      its new state. */
  method Gather(pp: Process, w: Wait, slow: set<Process>, ghost r: seq<Process>) returns (jobflags: set<Flag>)
    requires Round(pp, r) && (forall p <- r :: Sound(p.flags)) && (Running in pp.flags || Stopped in pp.flags)
    modifies r`flags
    ensures Sound(pp.flags) && Tells(pp.flags, w, Dumped in old(pp.flags)) && Reported !in pp.flags
    ensures Foregnd in pp.flags <==> Foregnd in old(pp.flags)
    ensures Notify in pp.flags <==> Notify in old(pp.flags)
    ensures forall p <- r :: p != pp ==> old(p.flags) <= p.flags <= old(p.flags) + {Time}
    ensures forall f :: f in jobflags <==> Some(r, f)
  {
    SetState(pp, w);
    ghost var f := pp.flags;
    jobflags := Collect(pp, slow, r);
    assert pp.flags - {Time, PTime, Foregnd} == f - {Time, PTime, Foregnd};
    SoundTime(f, pp.flags);
  }

  /** The marks of pp after its state has been recorded. */
  method Unmark(pp: Process)
    requires Sound(pp.flags)
    modifies pp`flags
    ensures Sound(pp.flags) && Alike(pp.flags, old(pp.flags))
    ensures forall s :: s in STATES + {Reported, Notify} ==> (s in pp.flags <==> s in old(pp.flags))
  {
    ghost var f := pp.flags;
    pp.flags := pp.flags - {Foregnd};
    if pp == pp.friends && PTime in pp.flags {
      pp.flags := pp.flags - {PTime} + {Time};
    }
    assert pp.flags - {Time, PTime, Foregnd} == f - {Time, PTime, Foregnd};
    SoundTime(f, pp.flags);
  }

  /** A process that may only have been marked for timing. */
  lemma Marked(f: set<Flag>, g: set<Flag>)
    requires Sound(f) && f <= g <= f + {Time}
    ensures Sound(g) && Alike(f, g) && forall s :: s != Time ==> (s in f <==> s in g)
  {
    assert f - {Time, PTime, Foregnd} == g - {Time, PTime, Foregnd};
    SoundTime(f, g);
  }

  method GatherAll(pp: Process, w: Wait, slow: set<Process>, ghost r: seq<Process>) returns (jobflags: set<Flag>)
    requires Round(pp, r) && (forall p <- r :: Sound(p.flags)) && (Running in pp.flags || Stopped in pp.flags)
    modifies r`flags
    ensures (forall p <- r :: Sound(p.flags)) && Tells(pp.flags, w, Dumped in old(pp.flags)) && Reported !in pp.flags
    ensures forall p <- r :: p != pp ==> old(p.flags) <= p.flags <= old(p.flags) + {Time}
    ensures forall f :: f in jobflags <==> Some(r, f)
    ensures forall f <- {Foregnd, Notify} :: f in jobflags <==> old(Some(r, f))
  {
    jobflags := Gather(pp, w, slow, r);
    forall p | p in r
      ensures Sound(p.flags) && (Foregnd in p.flags <==> Foregnd in old(p.flags))
      ensures Notify in p.flags <==> Notify in old(p.flags) {
      if p != pp {
        Marked(old(p.flags), p.flags);
      }
    }
  }

  /** The first half of `pchild`: the new state of pp, and the flags of its job. */
  method Record(pp: Process, w: Wait, slow: set<Process>, ghost r: seq<Process>) returns (jobflags: set<Flag>)
    requires Round(pp, r) && (forall p <- r :: Sound(p.flags)) && (Running in pp.flags || Stopped in pp.flags)
    modifies r`flags
    ensures (forall p <- r :: Sound(p.flags)) && Tells(pp.flags, w, Dumped in old(pp.flags)) && Reported !in pp.flags
    ensures forall p <- r :: p != pp ==> old(p.flags) <= p.flags <= old(p.flags) + {Time}
    ensures forall f <- {Running, Stopped, Reported} :: f in jobflags <==> Some(r, f)
    ensures forall f <- {Foregnd, Notify} :: f in jobflags <==> old(Some(r, f))
  {
    jobflags := GatherAll(pp, w, slow, r);
    label gathered:
    Unmark(pp);
    forall f | f in {Running, Stopped, Reported} ensures Some(r, f) <==> old@gathered(Some(r, f)) {
      assert forall p <- r :: f in p.flags <==> f in old@gathered(p.flags);
    }
  }

  lemma ReportedSound(f: set<Flag>)
    requires Sound(f) && Stopped in f
    ensures Sound(f + {Reported}) && Alike(f + {Reported}, f)
  {
    assert (f + {Reported}) * STATES == f * STATES;
    SoundToo(f, f + {Reported});
  }

  lemma NoteSound(f: set<Flag>)
    requires Sound(f)
    ensures Sound(f + {NeedNote}) && Alike(f + {NeedNote}, f)
  {
    assert (f + {NeedNote}) * STATES == f * STATES;
    SoundToo(f, f + {NeedNote});
  }

  lemma TellsToo(f: set<Flag>, g: set<Flag>, w: Wait, dumped: bool)
    requires Alike(f, g) && Tells(g, w, dumped)
    ensures Tells(f, w, dumped)
  {
    SameStates(f, g);
  }

  lemma SameStates(f: set<Flag>, g: set<Flag>)
    requires f * STATES == g * STATES
    ensures forall s <- STATES :: s in f <==> s in g
  {
    forall s <- STATES ensures s in f <==> s in g {
      assert s in f <==> s in f * STATES;
      assert s in g <==> s in g * STATES;
    }
  }

  /** The processes that have not been flushed. */
  ghost function Unflushed(ps: seq<Process>): (k: seq<Process>)
    reads ps`pid
    ensures (forall p <- k :: p in ps && p.pid != 0) && forall p <- ps :: p.pid != 0 ==> p in k
  {
    if ps == [] then [] else
      var n := |ps| - 1;
      assert ps == ps[..n] + [ps[n]];
      Unflushed(ps[..n]) + if ps[n].pid != 0 then [ps[n]] else []
  }

  lemma UnflushedMore(ps: seq<Process>, k: nat)
    requires k < |ps|
    ensures Unflushed(ps[..k + 1]) == Unflushed(ps[..k]) + if ps[k].pid != 0 then [ps[k]] else []
  {
    assert ps[..k + 1][..k] == ps[..k];
  }

  lemma NoneUnflushed()
    ensures Unflushed([]) == []
  {
  }
}
