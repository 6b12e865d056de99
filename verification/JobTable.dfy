/** The job table of csh (bin/csh/proc.c). */
module JobTable {
  import opened JobRing

  const BIGINDEX := 9

  function AtOrNull(s: seq<Process>, k: nat): Process? {
    if k < |s| then s[k] else null
  }

  class JobTable {
    const proclist: Process
    var pcurrjob: Process?
    var pholdjob: Process?
    var pcurrent: Process?
    var pprevious: Process?
    var pmaxindex: int
    /** All the processes, the latest first. */
    ghost var procs: seq<Process>

    ghost predicate Listed()
      reads this`procs, proclist`next, procs`next
    {
      && proclist !in procs && Distinct(procs) && proclist.next == AtOrNull(procs, 0)
      && forall k {:trigger procs[k].next} :: 0 <= k < |procs| ==> procs[k].next == AtOrNull(procs, k + 1)
    }

    /** The ring of p: all its members know it, and their links go round it. */
    ghost predicate RingOf(p: Process)
      reads this`procs, p`ring, procs`ring, procs`friends
    {
      && p in p.ring && Distinct(p.ring) && (forall k :: 0 <= k < |p.ring| ==> p.ring[k] in procs)
      && (forall q <- p.ring :: q.ring == p.ring) && Circle(p.ring)
    }

    ghost predicate Rings()
      reads this`procs, procs`ring, procs`friends
    {
      forall p {:trigger RingOf(p)} :: p in procs ==> RingOf(p)
    }

    ghost predicate SameJob(p: Process, l: Process)
      reads p`index, p`pid, p`jobid, l`index, l`pid, l`jobid
    {
      && p.index == l.index && p.jobid == l.jobid && p.jobid > 0
      && if l.pid == 0 then p.pid == 0 && p.index == 0 else p.pid > 0 && p.jobid == l.pid && p.index > 0
    }

    /** The job of p has one number and is flushed altogether or not at all. */
    ghost predicate JobOf(p: Process)
      reads this`procs, p`ring, p`index, p`pid, p`jobid, procs`index, procs`pid, procs`jobid
    {
      && p.ring != [] && p.ring[0] in procs && SameJob(p, p.ring[0])
    }

    /** No two processes have a pid in common, and no two jobs a number. */
    ghost predicate NotMixed(p: Process, q: Process)
      reads p`pid, p`index, p`ring, q`pid, q`index, q`ring
    {
      (p.pid == q.pid != 0 ==> p == q) && (p.index == q.index != 0 ==> p.ring == q.ring)
    }

    /** The largest number in use. */
    ghost predicate Topped()
      reads this`procs, this`pmaxindex, procs`index
    {
      && (forall p <- procs :: p.index <= pmaxindex)
      && pmaxindex >= 0 && (pmaxindex > 0 ==> exists p <- procs :: p.index == pmaxindex)
    }

    ghost predicate Jobs()
      reads this`procs, procs`ring, procs`index, procs`pid, procs`jobid
    {
      && (forall p {:trigger JobOf(p)} :: p in procs ==> JobOf(p))
      && forall p, q {:trigger NotMixed(p, q)} :: p in procs && q in procs ==> NotMixed(p, q)
    }

    ghost predicate Stated()
      reads this`procs, procs`flags
    {
      forall p <- procs :: Sound(p.flags)
    }

    /** A job that is not flushed, given by its leader. */
    ghost predicate Leads(p: Process)
      reads this`procs, procs`pid, procs`jobid
    {
      p in procs && p.pid == p.jobid != 0
    }

    ghost predicate Pointed()
      reads this`procs, this`pcurrent, this`pprevious, this`pcurrjob, procs`pid, procs`jobid
    {
      && (pcurrent != null ==> Leads(pcurrent)) && (pprevious != null ==> Leads(pprevious) && pcurrent != null)
      && (pcurrent != null ==> pcurrent != pprevious) && (pcurrjob != null ==> Leads(pcurrjob))
    }

    ghost predicate Valid()
      reads this, proclist`next, procs
    {
      Listed() && Rings() && Jobs() && Topped() && Stated() && Pointed()
    }

    constructor ()
      ensures Valid() && procs == [] && fresh(proclist)
    {
      proclist := new Process(0, {});
      pcurrjob, pholdjob, pcurrent, pprevious, pmaxindex, procs := null, null, null, null, 0, [];
    }

    /** A job that `pgetcurr` may choose. */
    ghost predicate Candidate(p: Process, pp: Process)
      reads this`procs, this`pcurrent, procs`pid, procs`jobid
    {
      Leads(p) && p != pcurrent && p != pp
    }

    /** No candidate is to be preferred to the process at place k. */
    ghost predicate Chosen(k: nat, pp: Process)
      requires k < |procs|
      reads this`procs, this`pcurrent, procs
    {
      && Candidate(procs[k], pp)
      && (forall j :: 0 <= j < k && Candidate(procs[j], pp) ==> Stopped in procs[k].flags && Stopped !in procs[j].flags)
      && (Stopped !in procs[k].flags ==> forall p <- procs :: Candidate(p, pp) ==> Stopped !in p.flags)
    }

    /** `pgetcurr`: the most recent stopped candidate if there is one, or else the most recent candidate. */
    method Pgetcurr(pp: Process) returns (r: Process?)
      requires Listed()
      ensures r == null ==> forall p <- procs :: !Candidate(p, pp)
      ensures r != null ==> exists k: nat :: k < |procs| && procs[k] == r && Chosen(k, pp)
    {
      var np := proclist.next;
      ghost var k, x := 0, 0;
      r := null;
      while np != null
        invariant k <= |procs| && np == AtOrNull(procs, k)
        invariant r == null ==> forall j :: 0 <= j < k ==> !Candidate(procs[j], pp)
        invariant r != null ==> x < k && procs[x] == r && Candidate(r, pp) && Stopped !in r.flags
        invariant r != null ==> forall j :: 0 <= j < x ==> !Candidate(procs[j], pp)
        invariant forall j :: 0 <= j < k && Candidate(procs[j], pp) ==> Stopped !in procs[j].flags
        decreases |procs| - k
      {
        if np != pcurrent && np != pp && np.pid != 0 && np.pid == np.jobid {
          if Stopped in np.flags {
            return np;
          }
          if r == null {
            r, x := np, k;
          }
        }
        np, k := np.next, k + 1;
      }
    }

    /** `pclrcurr`: the job is neither the current nor the previous one; the other of the two keeps a place,
        and a place that falls free goes to the job that `pgetcurr` finds. */
    method Pclrcurr(pp: Process)
      requires Listed() && Pointed() && Leads(pp)
      modifies this`pcurrent, this`pprevious
      ensures Pointed() && pcurrent != pp && pprevious != pp
      ensures pp == old(pcurrent) && old(pprevious) != null ==> pcurrent == old(pprevious)
      ensures pp != old(pcurrent) ==>
        pcurrent == old(pcurrent) && (pp != old(pprevious) ==> pprevious == old(pprevious))
      ensures pp == old(pcurrent) && pcurrent == null ==> forall p <- procs :: Leads(p) ==> p == pp
      ensures pp == old(pcurrent) || pp == old(pprevious) ==>
        if pprevious == null then forall p <- procs :: Leads(p) ==> p == pp || p == pcurrent
        else exists k: nat :: k < |procs| && procs[k] == pprevious && Chosen(k, pp)
    {
      if pp == pcurrent {
        if pprevious != null {
          pcurrent := pprevious;
          pprevious := Pgetcurr(pp);
        } else {
          pcurrent := Pgetcurr(pp);
          pprevious := Pgetcurr(pp);
        }
      } else if pp == pprevious {
        pprevious := Pgetcurr(pp);
      }
    }

    lemma LeaderPid(p: Process)
      requires Rings() && Jobs() && p in procs && p.pid != 0
      ensures p.ring != [] && p.ring[0] in procs && RingOf(p) && JobOf(p) && Leads(p.ring[0])
      ensures p.pid == p.jobid <==> p == p.ring[0]
    {
      assert RingOf(p) && JobOf(p) && NotMixed(p, p.ring[0]);
      assert p.ring[0] in p.ring;
      assert JobOf(p.ring[0]);
    }

    lemma NextFriend(p: Process, r: seq<Process>, i: nat)
      requires Rings() && p in procs && p.ring == r && i < |r| && r[i] == p
      ensures var q := r[if i + 1 < |r| then i + 1 else 0]; p.friends == q && q in procs && q.ring == r
    {
      assert RingOf(p);
      assert p.friends in r;
    }

    lemma SamePid(p: Process, q: Process)
      requires Rings() && Jobs() && p in procs && q in procs && p.ring == q.ring && p.pid != 0
      ensures q.pid != 0
    {
      assert JobOf(p) && JobOf(q);
    }

    /** The leader of a job that is not flushed. */
    method Leader(pp0: Process) returns (pp: Process)
      requires Rings() && Jobs() && pp0 in procs && pp0.pid != 0
      ensures pp0.ring != [] && pp == pp0.ring[0] && Leads(pp)
    {
      pp := pp0;
      ghost var r := pp0.ring;
      LeaderPid(pp);
      ghost var i: nat :| i < |r| && r[i] == pp;
      while pp.pid != pp.jobid
        invariant i < |r| && r[i] == pp && pp in procs && pp.ring == r && pp.pid != 0
        decreases if i == 0 then 0 else |r| - i
      {
        LeaderPid(pp);
        NextFriend(pp, r, i);
        SamePid(pp, pp.friends);
        pp, i := pp.friends, if i + 1 < |r| then i + 1 else 0;
      }
      LeaderPid(pp);
    }

    /** The processes of r have been flushed. */
    static twostate predicate Zeroed(r: seq<Process>)
      reads r
    {
      forall q <- r :: q.index == 0 && q.pid == 0 && q.flags == old(q.flags) - {NeedNote}
    }

    /** The processes of a ring, given from its leader on, lose number and pid. */
    method ZeroRing(pp: Process, ghost r: seq<Process>)
      requires Circle(r) && r[0] == pp && Distinct(r)
      modifies r`index, r`pid, r`flags
      ensures Zeroed(r)
    {
      var np := pp;
      ghost var k := 0;
      while true
        invariant k < |r| && np == r[k]
        invariant forall j :: 0 <= j < k ==>
          r[j].index == 0 && r[j].pid == 0 && r[j].flags == old(r[j].flags) - {NeedNote}
        invariant forall j :: k <= j < |r| ==> r[j].flags == old(r[j].flags)
        decreases |r| - k
      {
        forall j: nat | j < |r| && r[j] == np ensures j == k {
          DistinctAt(r, j, k);
        }
        np.index, np.pid := 0, 0;
        np.flags := np.flags - {NeedNote};
        np, k := np.friends, k + 1;
        if np == pp {
          ghost var j := if k < |r| then k else 0;
          DistinctAt(r, j, 0);
          return;
        }
      }
    }

    /** The job whose ring is r is flushed, and nothing else has happened to any process. */
    twostate predicate Flushed(r: seq<Process>)
      reads this`procs, procs
    {
      && procs == old(procs)
      && forall p :: p in old(procs) ==>
        && p.ring == old(p.ring) && p.jobid == old(p.jobid) && p.friends == old(p.friends)
        && if p in r then p.index == 0 && p.pid == 0 && p.flags == old(p.flags) - {NeedNote}
           else p.index == old(p.index) && p.pid == old(p.pid) && p.flags == old(p.flags)
    }

    twostate lemma FlushedJobs(r: seq<Process>)
      requires old(Rings()) && old(Jobs()) && Flushed(r)
      requires r != [] && r[0] in procs && r == old(r[0].ring)
      ensures Jobs()
    {
      forall p | p in procs ensures JobOf(p) {
        assert old(JobOf(p)) && old(RingOf(p)) && old(RingOf(r[0]));
        assert p.ring[0] in p.ring;
      }
      forall p, q | p in procs && q in procs ensures NotMixed(p, q) {
        assert old(NotMixed(p, q));
      }
    }

    /** The largest number of a job. */
    method LargestIndex() returns (idx: int)
      requires Listed()
      ensures idx >= 0 && forall p <- procs :: p.index <= idx
      ensures idx > 0 ==> exists p <- procs :: p.index == idx
    {
      var np := proclist.next;
      ghost var k := 0;
      idx := 0;
      while np != null
        invariant k <= |procs| && np == AtOrNull(procs, k) && idx >= 0
        invariant forall j :: 0 <= j < k ==> procs[j].index <= idx
        invariant idx > 0 ==> exists p <- procs :: p.index == idx
        decreases |procs| - k
      {
        if np.index > idx {
          assert np in procs;
          idx := np.index;
        }
        np, k := np.next, k + 1;
      }
    }

    twostate lemma FlushedStates(r: seq<Process>)
      requires old(Stated()) && Flushed(r)
      ensures Stated()
    {
      forall p | p in procs ensures Sound(p.flags) {
        assert p.flags * STATES == old(p.flags) * STATES;
        SoundToo(old(p.flags), p.flags);
      }
    }

    lemma LeadsAlone(pp: Process)
      requires Rings() && Jobs() && Leads(pp)
      ensures RingOf(pp) && pp.ring[0] == pp
      ensures forall l :: Leads(l) && l in pp.ring ==> l == pp
      ensures forall p <- pp.ring :: p.index == pp.index
    {
      LeaderPid(pp);
      forall l | l in pp.ring ensures l.index == pp.index && (Leads(l) ==> l == pp) {
        assert l.ring == pp.ring && l in procs && JobOf(l);
        if Leads(l) {
          LeaderPid(l);
        }
      }
    }

    twostate lemma FlushedTop(r: seq<Process>)
      requires r != [] && r[0] in old(procs)
      requires Flushed(r) && old(Topped()) && pmaxindex == old(pmaxindex)
      requires forall p <- r :: p in old(procs) ==> old(p.index) == old(r[0].index)
      ensures pmaxindex != old(r[0].index) ==> Topped()
    {
      if pmaxindex > 0 && pmaxindex != old(r[0].index) {
        var p :| p in procs && old(p.index) == pmaxindex;
        assert p in old(procs) && p !in r;
      }
    }

    /** A number that was the largest is not used any more. */
    method GiveBack(idx: int)
      requires Listed() && (pmaxindex != idx ==> Topped())
      modifies this`pmaxindex
      ensures Topped()
    {
      if idx == pmaxindex {
        pmaxindex := LargestIndex();
      }
    }

    /** Everything that names a job forgets this one. */
    method Forget(pp: Process)
      requires Listed() && Pointed() && Leads(pp)
      modifies this`pcurrent, this`pprevious, this`pcurrjob
      ensures Pointed() && pcurrent != pp && pprevious != pp && pcurrjob != pp
      ensures pcurrjob == if old(pcurrjob) == pp then null else old(pcurrjob)
      ensures old(pcurrent) != pp ==> pcurrent == old(pcurrent)
      ensures old(pcurrent) != pp && old(pprevious) != pp ==> pprevious == old(pprevious)
      ensures old(pcurrent) == pp && old(pprevious) != null ==> pcurrent == old(pprevious)
    {
      Pclrcurr(pp);
      if pp == pcurrjob {
        pcurrjob := null;
      }
    }

    twostate lemma FlushedPointed(r: seq<Process>)
      requires old(Pointed()) && Flushed(r) && forall l :: l in old(procs) && old(Leads(l)) && l in r ==> l == r[0]
      requires r != [] && r[0] != pcurrent && r[0] != pprevious && r[0] != pcurrjob
      requires pcurrent == old(pcurrent) && pprevious == old(pprevious) && pcurrjob == old(pcurrjob)
      ensures Pointed()
    {
    }

    /** What is kept when a job that nothing names is flushed, and the number that may have been the largest. */
    twostate lemma FlushedKeeps(r: seq<Process>)
      requires old(Valid()) && Flushed(r) && r != [] && r[0] in old(procs) && r == old(r[0].ring) && old(Leads(r[0]))
      requires pcurrent == old(pcurrent) && pprevious == old(pprevious) && pcurrjob == old(pcurrjob)
      requires forall l :: l in old(procs) && old(Leads(l)) && l in r ==> l == r[0]
      requires forall p <- r :: p in old(procs) ==> old(p.index) == old(r[0].index)
      requires pmaxindex == old(pmaxindex) && r[0] != pcurrent && r[0] != pprevious && r[0] != pcurrjob
      ensures Jobs() && Stated() && Pointed() && (pmaxindex != old(r[0].index) ==> Topped())
    {
      FlushedJobs(r);
      FlushedStates(r);
      FlushedPointed(r);
      FlushedTop(r);
    }

    /** The processes of a job that nothing names lose pid and number. */
    method Erase(pp: Process)
      requires Valid() && Leads(pp) && pcurrent != pp && pprevious != pp && pcurrjob != pp
      modifies pp.ring`index, pp.ring`pid, pp.ring`flags
      ensures Listed() && Rings() && Jobs() && Stated() && Pointed() && Zeroed(pp.ring)
      ensures pmaxindex != old(pp.index) ==> Topped()
    {
      LeadsAlone(pp);
      ghost var r := pp.ring;
      ZeroRing(pp, r);
      FlushedKeeps(r);
    }

    /** The job that pp leads is taken out, when nothing names it any more. */
    method Wipe(pp: Process)
      requires Valid() && Leads(pp) && pcurrent != pp && pprevious != pp && pcurrjob != pp
      modifies this`pmaxindex, pp.ring`index, pp.ring`pid, pp.ring`flags
      ensures Valid() && Zeroed(pp.ring)
    {
      var idx := pp.index;
      Erase(pp);
      GiveBack(idx);
    }

    method FlushJob(pp: Process)
      requires Valid() && Leads(pp)
      modifies this`pcurrent, this`pprevious, this`pcurrjob, this`pmaxindex, pp.ring`index, pp.ring`pid, pp.ring`flags
      ensures Valid() && Zeroed(pp.ring)
      ensures pcurrjob == if old(pcurrjob) == pp then null else old(pcurrjob)
      ensures old(pcurrent) != pp ==> pcurrent == old(pcurrent)
      ensures old(pcurrent) != pp && old(pprevious) != pp ==> pprevious == old(pprevious)
      ensures old(pcurrent) == pp && old(pprevious) != null ==> pcurrent == old(pprevious)
    {
      Forget(pp);
      Wipe(pp);
    }

    /** `pflush`: every process of the job loses its pid and number, and no other process is touched; the job
        is the current one in no sense any more. */
    method Pflush(pp0: Process)
      requires Valid() && pp0 in procs && pp0.pid != 0
      modifies this`pcurrent, this`pprevious, this`pcurrjob, this`pmaxindex, pp0.ring`index, pp0.ring`pid,
        pp0.ring`flags
      ensures Valid() && Zeroed(pp0.ring)
      ensures pp0.ring != [] && pcurrjob == if old(pcurrjob) == pp0.ring[0] then null else old(pcurrjob)
      ensures old(pcurrent) != pp0.ring[0] ==> pcurrent == old(pcurrent)
      ensures old(pcurrent) != pp0.ring[0] && old(pprevious) != pp0.ring[0] ==> pprevious == old(pprevious)
      ensures old(pcurrent) == pp0.ring[0] && old(pprevious) != null ==> pcurrent == old(pprevious)
    {
      var pp := Leader(pp0);
      LeaderPid(pp0);
      LeadsAlone(pp);
      FlushJob(pp);
    }

    ghost predicate InUse(i: int)
      reads this`procs, procs`index
    {
      exists p <- procs :: p.index == i
    }

    method Used(i: int) returns (used: bool)
      requires Listed()
      ensures used <==> InUse(i)
    {
      var np := proclist.next;
      ghost var k := 0;
      while np != null
        invariant k <= |procs| && np == AtOrNull(procs, k) && forall j :: 0 <= j < k ==> procs[j].index != i
        decreases |procs| - k
      {
        if np.index == i {
          return true;
        }
        np, k := np.next, k + 1;
      }
      used := false;
    }

    /** The number of a new job: one more than the largest, or the least one not in use if that would be too
        large. */
    ghost predicate FreeIndex(i: int)
      reads this`procs, this`pmaxindex, procs`index
    {
      && i > 0 && !InUse(i) && (pmaxindex < BIGINDEX ==> i == pmaxindex + 1)
      && (pmaxindex >= BIGINDEX ==> i <= pmaxindex + 1 && forall j :: 0 < j < i ==> InUse(j))
    }

    method NewIndex() returns (i: int)
      requires Listed() && Topped()
      ensures FreeIndex(i)
    {
      if pmaxindex < BIGINDEX {
        return pmaxindex + 1;
      }
      i := 1;
      while true
        invariant 0 < i <= pmaxindex + 1 && forall j :: 0 < j < i ==> InUse(j)
        decreases pmaxindex + 1 - i
      {
        var used := Used(i);
        if !used {
          return;
        }
        i := i + 1;
      }
    }

    /** pp has been put in front of the list, and no process has another pid, number or state. */
    twostate predicate Added(new pp: Process)
      reads *
    {
      && procs == [pp] + old(procs) && pp !in old(procs) && pp.pid > 0
      && (forall p :: p in old(procs) ==> p.pid == old(p.pid) && p.index == old(p.index) && p.pid != pp.pid)
      && forall p :: p in old(procs) ==> p.jobid == old(p.jobid) && p.flags == old(p.flags)
    }

    /** pp leads a new job. */
    twostate predicate Started(new pp: Process)
      reads *
    {
      && Added(pp) && pp.ring == [pp] && pp.friends == pp && pp.jobid == pp.pid && pp.index > 0
      && (forall p :: p in old(procs) ==> p.ring == old(p.ring) && p.friends == old(p.friends))
      && forall p :: p in old(procs) ==> p.index != pp.index
    }

    twostate lemma StartedRings(new pp: Process)
      requires old(Rings()) && Started(pp)
      ensures Rings()
    {
      forall p | p in procs ensures RingOf(p) {
        if p != pp {
          assert old(RingOf(p));
        }
      }
    }

    twostate lemma StartedJobs(new pp: Process)
      requires old(Jobs()) && Started(pp)
      ensures Jobs()
    {
      forall p | p in procs ensures JobOf(p) {
        if p != pp {
          assert old(JobOf(p));
        }
      }
      forall p, q | p in procs && q in procs ensures NotMixed(p, q) {
        if p != pp && q != pp {
          assert old(NotMixed(p, q));
        }
      }
    }

    /** pp is the last process of the job that is being built. */
    twostate predicate Joined(new pp: Process)
      reads *
    {
      && Added(pp) && pcurrjob == old(pcurrjob) && pcurrjob != null && old(Leads(pcurrjob))
      && pp.friends == pcurrjob && pp.index == pcurrjob.index && pp.jobid == pcurrjob.pid
      && old(pcurrjob.ring) != [] && old(pcurrjob.ring)[0] == pcurrjob && pp.ring == old(pcurrjob.ring) + [pp]
      && (forall p :: p in old(procs) ==> p.ring == if p in old(pcurrjob.ring) then pp.ring else old(p.ring))
      && Circle(pp.ring) && forall p :: p in old(procs) && p !in pp.ring ==> p.friends == old(p.friends)
    }

    twostate lemma JoinedCircle(new pp: Process)
      requires old(Rings()) && Joined(pp)
      ensures RingOf(pp)
    {
      var r := old(pcurrjob.ring);
      assert old(RingOf(pcurrjob));
      DistinctMore(r, pp);
    }

    twostate lemma JoinedMember(new pp: Process)
      requires Joined(pp) && RingOf(pp)
      ensures forall p :: p in pp.ring ==> RingOf(p)
    {
    }

    /** A ring whose links have not changed. */
    twostate lemma RingKept(p: Process)
      requires old(RingOf(p)) && p.ring == old(p.ring) && forall q <- old(procs) :: q in procs
      requires forall q <- old(p.ring) :: q.ring == old(q.ring) && q.friends == old(q.friends)
      ensures RingOf(p)
    {
      var r := p.ring;
      assert old(Circle(r));
      forall k | 0 <= k < |r| ensures r[k].friends == old(r[k].friends) {
        assert r[k] in r;
      }
    }

    twostate lemma RingMembers(p: Process)
      requires old(RingOf(p))
      ensures p in old(p.ring) && forall q <- old(p.ring) :: q in old(procs) && old(q.ring) == old(p.ring)
    {
    }

    twostate lemma JoinedOther(new pp: Process)
      requires old(Rings()) && Joined(pp) && RingOf(pp)
      ensures forall p :: p in procs && p !in pp.ring ==> RingOf(p)
    {
      var r := old(pcurrjob.ring);
      assert old(RingOf(pcurrjob)) && procs == [pp] + old(procs) && pp in pp.ring;
      RingMembers(old(pcurrjob));
      hide RingOf, Circle;
      forall p | p in procs && p !in pp.ring ensures RingOf(p) {
        assert p in old(procs) && old(RingOf(p)) && p !in r;
        RingMembers(p);
        forall q | q in p.ring ensures q.ring == old(q.ring) && q.friends == old(q.friends) {
          assert q !in r;
        }
        RingKept(p);
      }
    }

    twostate lemma JoinedRings(new pp: Process)
      requires old(Rings()) && Joined(pp)
      ensures Rings()
    {
      JoinedCircle(pp);
      JoinedMember(pp);
      JoinedOther(pp);
      forall p | p in procs ensures RingOf(p) {
      }
    }

    /** The ring of every process is as it was, but the one that pp joins, which has the same leader. */
    twostate lemma JoinedHeads(new pp: Process)
      requires old(Rings()) && Joined(pp)
      ensures forall p :: p in old(procs) ==> old(p.ring) != [] && p.ring != [] && p.ring[0] == old(p.ring)[0]
      ensures forall p :: p in old(procs) ==>
        p.ring == if old(p.ring) == old(pcurrjob.ring) then pp.ring else old(p.ring)
    {
      assert old(RingOf(pcurrjob));
      forall p | p in old(procs) ensures p in old(pcurrjob.ring) <==> old(p.ring) == old(pcurrjob.ring) {
        assert old(RingOf(p));
      }
      forall p | p in old(procs) ensures old(p.ring) != [] {
        assert old(RingOf(p));
      }
    }

    twostate lemma JoinedJobOf(new pp: Process)
      requires old(Rings()) && old(Jobs()) && Joined(pp)
      ensures forall p {:trigger JobOf(p)} :: p in procs ==> JobOf(p)
    {
      JoinedHeads(pp);
      assert old(JobOf(pcurrjob)) && pp.ring[0] == pcurrjob;
      forall p | p in procs ensures JobOf(p) {
        if p != pp {
          assert old(JobOf(p));
        }
      }
    }

    twostate lemma JoinedMixed(new pp: Process)
      requires old(Rings()) && old(Jobs()) && Joined(pp)
      ensures forall p, q {:trigger NotMixed(p, q)} :: p in procs && q in procs ==> NotMixed(p, q)
    {
      JoinedHeads(pp);
      forall p, q | p in procs && q in procs ensures NotMixed(p, q) {
        var p', q' := if p == pp then pcurrjob else p, if q == pp then pcurrjob else q;
        assert old(NotMixed(p', q'));
      }
    }

    twostate lemma JoinedJobs(new pp: Process)
      requires old(Rings()) && old(Jobs()) && Joined(pp)
      ensures Jobs()
    {
      JoinedJobOf(pp);
      JoinedMixed(pp);
    }

    twostate lemma AddedStates(new pp: Process)
      requires old(Stated()) && Added(pp) && Sound(pp.flags)
      ensures Stated()
    {
    }

    /** The new process goes to the front of the list. */
    method Link(pp: Process)
      requires Listed() && pp !in procs && pp != proclist
      modifies pp`next, proclist`next, this`procs
      ensures Listed() && procs == [pp] + old(procs)
    {
      assert ([pp] + procs)[1..] == procs;
      pp.next := proclist.next;
      proclist.next := pp;
      procs := [pp] + procs;
    }

    /** The new process goes behind the last one of the job that is being built. */
    method Attach(pp: Process)
      requires Rings() && Jobs() && pp !in procs && pcurrjob != null && Leads(pcurrjob)
      modifies pp`index, pp`friends, pp`jobid, pp`ring, pcurrjob.ring`friends, pcurrjob.ring`ring
      ensures pp.friends == pcurrjob && pp.index == pcurrjob.index && pp.jobid == pcurrjob.pid
      ensures old(pcurrjob.ring) != [] && old(pcurrjob.ring)[0] == pcurrjob && pp.ring == old(pcurrjob.ring) + [pp]
      ensures forall p :: p in old(pcurrjob.ring) ==> p.ring == pp.ring
      ensures Circle(pp.ring)
    {
      LeaderPid(pcurrjob);
      ghost var r := pcurrjob.ring;
      pp.index, pp.jobid, pp.friends := pcurrjob.index, pcurrjob.pid, pcurrjob;
      var fp: Process := pcurrjob;
      ghost var k := 0;
      while fp.friends != pcurrjob
        invariant k < |r| && fp == r[k]
        decreases |r| - k
      {
        fp, k := fp.friends, k + 1;
      }
      ghost var j := if k + 1 < |r| then k + 1 else 0;
      DistinctAt(r, j, 0);
      fp.friends := pp;
      forall i: nat | i < |r| ensures r[i].friends == if i + 1 < |r| then r[i + 1] else pp {
        DistinctAt(r, i, k);
      }
      CircleMore(r, pp);
      forall q | q in r {
        q.ring := r + [pp];
      }
      pp.ring := r + [pp];
    }

    /** A process is added to the job that is being built. */
    method Continue(pp: Process)
      requires Listed() && Rings() && Jobs() && pp !in procs && pp != proclist && pcurrjob != null && Leads(pcurrjob)
      requires pp.pid > 0 && Sound(pp.flags) && forall p <- procs :: p.pid != pp.pid
      modifies pp`index, pp`friends, pp`jobid, pp`ring, pcurrjob.ring`friends, pcurrjob.ring`ring
      modifies pp`next, proclist`next, this`procs
      ensures Listed() && Joined(pp)
    {
      Attach(pp);
      Link(pp);
    }

    /** What is kept when a process is added to the job that is being built. */
    twostate lemma JoinedKeeps(new pp: Process)
      requires old(Rings()) && old(Jobs()) && old(Stated()) && Joined(pp) && Sound(pp.flags)
      ensures Rings() && Jobs() && Stated()
    {
      JoinedRings(pp);
      JoinedJobs(pp);
      AddedStates(pp);
    }

    twostate lemma JoinedNames(new pp: Process)
      requires old(Pointed()) && old(Topped()) && Joined(pp) && pmaxindex == old(pmaxindex)
      requires pcurrent == old(pcurrent) && pprevious == old(pprevious)
      ensures Pointed() && Topped()
    {
      if pmaxindex > 0 {
        var p :| p in old(procs) && old(p.index) == pmaxindex;
        assert p in procs;
      }
    }

    method AddToJob(pp: Process)
      requires Valid() && pp !in procs && pp != proclist && pcurrjob != null
      requires pp.pid > 0 && Sound(pp.flags) && forall p <- procs :: p.pid != pp.pid
      modifies pp`index, pp`friends, pp`jobid, pp`ring, pcurrjob.ring`friends, pcurrjob.ring`ring
      modifies pp`next, proclist`next, this`procs
      ensures Valid() && Joined(pp)
    {
      Continue(pp);
      JoinedKeeps(pp);
      JoinedNames(pp);
    }

    /** A new job takes the first of the places `pcurrent` and `pprevious` that is free. */
    method Place(pp: Process)
      modifies this`pcurrent, this`pprevious
      ensures pcurrent == if old(pcurrent) == null then pp else old(pcurrent)
      ensures pprevious == if old(pcurrent) != null && old(pprevious) == null then pp else old(pprevious)
    {
      if pcurrent == null {
        pcurrent := pp;
      } else if pprevious == null {
        pprevious := pp;
      }
    }

    /** A job that consists of one process is entered, with a number of its own. (Where the source adds one to
        `pmaxindex`, the new number is one more than that too.) */
    method Enter(pp: Process)
      requires Listed() && Topped() && pp !in procs
      modifies pp`index, pp`friends, pp`jobid, pp`ring, this`pcurrjob, this`pmaxindex, this`pcurrent, this`pprevious
      ensures pp.ring == [pp] && pp.friends == pp && pp.jobid == pp.pid && pcurrjob == pp
      ensures pp.index > 0 && forall p <- procs :: p.index != pp.index
      ensures pmaxindex == if pp.index > old(pmaxindex) then pp.index else old(pmaxindex)
      ensures var i := pp.index; old(FreeIndex(i))
      ensures pcurrent == if old(pcurrent) == null then pp else old(pcurrent)
      ensures pprevious == if old(pcurrent) != null && old(pprevious) == null then pp else old(pprevious)
    {
      var i := NewIndex();
      assert forall p <- procs :: p.index != i;
      pcurrjob, pp.jobid, pp.friends, pp.index := pp, pp.pid, pp, i;
      pp.ring := [pp];
      if i > pmaxindex {
        pmaxindex := i;
      }
      Place(pp);
    }

    /** A new job in the list. */
    method Begin(pp: Process)
      requires Listed() && Topped() && pp !in procs && pp != proclist
      requires pp.pid > 0 && Sound(pp.flags) && forall p <- procs :: p.pid != pp.pid
      modifies pp`index, pp`friends, pp`jobid, pp`ring, pp`next, proclist`next, this`procs
      modifies this`pcurrjob, this`pmaxindex, this`pcurrent, this`pprevious
      ensures Listed() && Started(pp) && pcurrjob == pp
      ensures pmaxindex == if pp.index > old(pmaxindex) then pp.index else old(pmaxindex)
      ensures var i := pp.index; old(FreeIndex(i))
      ensures pcurrent == if old(pcurrent) == null then pp else old(pcurrent)
      ensures pprevious == if old(pcurrent) != null && old(pprevious) == null then pp else old(pprevious)
    {
      Enter(pp);
      Link(pp);
    }

    twostate lemma StartedKeeps(new pp: Process)
      requires old(Rings()) && old(Jobs()) && old(Stated()) && Started(pp) && Sound(pp.flags)
      ensures Rings() && Jobs() && Stated()
    {
      StartedRings(pp);
      StartedJobs(pp);
      AddedStates(pp);
    }

    twostate lemma StartedNames(new pp: Process)
      requires old(Pointed()) && old(Topped()) && Started(pp)
      requires pmaxindex == if pp.index > old(pmaxindex) then pp.index else old(pmaxindex)
      requires pcurrent == (if old(pcurrent) == null then pp else old(pcurrent)) && pcurrjob == pp
      requires pprevious == if old(pcurrent) != null && old(pprevious) == null then pp else old(pprevious)
      ensures Pointed() && Topped() && pp in procs
    {
      if pmaxindex > 0 && pmaxindex == old(pmaxindex) {
        var p :| p in old(procs) && old(p.index) == pmaxindex;
        assert p in procs;
      } else {
        assert pp in procs;
      }
    }

    method StartJob(pp: Process)
      requires Valid() && pp !in procs && pp != proclist && pcurrjob == null
      requires pp.pid > 0 && Sound(pp.flags) && forall p <- procs :: p.pid != pp.pid
      modifies pp`index, pp`friends, pp`jobid, pp`ring, pp`next, proclist`next, this`procs
      modifies this`pcurrjob, this`pmaxindex, this`pcurrent, this`pprevious
      ensures Valid() && Started(pp) && pcurrjob == pp
      ensures var i := pp.index; old(FreeIndex(i))
      ensures pcurrent == if old(pcurrent) == null then pp else old(pcurrent)
      ensures pprevious == if old(pcurrent) != null && old(pprevious) == null then pp else old(pprevious)
    {
      Begin(pp);
      StartedKeeps(pp);
      StartedNames(pp);
    }

    /** The new process goes to the job that is being built or, if there is none, leads a new one. */
    method Install(pp: Process)
      requires Valid() && pp !in procs && pp != proclist
      requires pp.pid > 0 && Sound(pp.flags) && forall p <- procs :: p.pid != pp.pid
      modifies pp`index, pp`friends, pp`jobid, pp`ring, pp`next, proclist`next, this`procs
      modifies this`pcurrjob, this`pmaxindex, this`pcurrent, this`pprevious
      modifies (if pcurrjob == null then [] else pcurrjob.ring)`friends
      modifies (if pcurrjob == null then [] else pcurrjob.ring)`ring
      ensures Valid() && procs == [pp] + old(procs)
      ensures old(pcurrjob) != null ==> pcurrjob == old(pcurrjob) && pp.ring == old(pcurrjob.ring) + [pp]
      ensures old(pcurrjob) != null ==> pcurrent == old(pcurrent) && pprevious == old(pprevious)
      ensures old(pcurrjob) == null ==> pcurrjob == pp && pp.ring == [pp]
      ensures var i := pp.index; old(pcurrjob) == null ==> old(FreeIndex(i))
      ensures old(pcurrjob) == null ==> pcurrent == if old(pcurrent) == null then pp else old(pcurrent)
      ensures old(pcurrjob) == null ==>
        pprevious == if old(pcurrent) != null && old(pprevious) == null then pp else old(pprevious)
    {
      if pcurrjob != null {
        AddToJob(pp);
      } else {
        StartJob(pp);
      }
    }

    /** `palloc`: a new running process, at the end of the job that is being built or, if there is none, as
        the leader of a new one. A new job takes the first of the places `pcurrent` and `pprevious` that is
        free. */
    method Palloc(pid: int, background: bool, timed: bool) returns (pp: Process)
      requires Valid() && pid > 0 && forall p <- procs :: p.pid != pid
      modifies this`procs, this`pcurrjob, this`pmaxindex, this`pcurrent, this`pprevious, proclist`next
      modifies (if pcurrjob == null then [] else pcurrjob.ring)`friends
      modifies (if pcurrjob == null then [] else pcurrjob.ring)`ring
      ensures Valid() && fresh(pp) && procs == [pp] + old(procs)
      ensures pp.pid == pid && IsState(pp.flags, Running) && (Foregnd in pp.flags <==> !background)
      ensures old(pcurrjob) != null ==> pcurrjob == old(pcurrjob) && pp.ring == old(pcurrjob.ring) + [pp]
      ensures old(pcurrjob) != null ==> pcurrent == old(pcurrent) && pprevious == old(pprevious)
      ensures old(pcurrjob) == null ==> pcurrjob == pp && pp.ring == [pp]
      ensures var i := pp.index; old(pcurrjob) == null ==> old(FreeIndex(i))
      ensures old(pcurrjob) == null ==> pcurrent == if old(pcurrent) == null then pp else old(pcurrent)
      ensures old(pcurrjob) == null ==>
        pprevious == if old(pcurrent) != null && old(pprevious) == null then pp else old(pprevious)
    {
      pp := new Process(pid, {Running} + (if background then {} else {Foregnd}) + if timed then {PTime} else {});
      assert IsState(pp.flags, Running) && Sound(pp.flags);
      Install(pp);
    }

    lemma RoundOf(pp: Process) returns (r: seq<Process>)
      requires RingOf(pp)
      ensures Round(pp, r) && (forall p :: p in r <==> p in pp.ring) && forall k :: 0 <= k < |r| ==> r[k] in pp.ring
    {
      var i: nat :| i < |pp.ring| && pp.ring[i] == pp;
      r := From(pp.ring, i);
      FromSame(pp.ring, i);
      FromCircle(pp.ring, i);
      FromDistinct(pp.ring, i);
    }

    /** Some other process of the job runs, or has been reported to be stopped. */
    ghost predicate Busy(r: seq<Process>, pp: Process)
      reads r`flags
    {
      exists p <- r :: p != pp && (Running in p.flags || Reported in p.flags)
    }

    /** The new state of a process that runs or was stopped. */
    method TakeState(pp: Process, w: Wait, slow: set<Process>) returns (jobflags: set<Flag>)
      requires RingOf(pp) && Stated() && (Running in pp.flags || Stopped in pp.flags)
      modifies pp.ring`flags
      ensures Stated() && Tells(pp.flags, w, Dumped in old(pp.flags))
      ensures forall p <- pp.ring :: p != pp ==> Alike(p.flags, old(p.flags))
      ensures forall f <- {Running, Stopped, Reported} :: f in jobflags <==> Some(pp.ring, f)
      ensures forall f <- {Foregnd, Notify} :: f in jobflags <==> old(Some(pp.ring, f))
      ensures Some(pp.ring, Running) || Some(pp.ring, Reported) <==> old(Busy(pp.ring, pp))
    {
      ghost var r := RoundOf(pp);
      jobflags := Record(pp, w, slow, r);
      forall p | p in pp.ring && p != pp
        ensures Alike(p.flags, old(p.flags))
        ensures forall f <- {Running, Reported} :: f in p.flags <==> f in old(p.flags)
      {
        Marked(old(p.flags), p.flags);
      }
      assert Running !in pp.flags * STATES;
    }

    method ReportStopped(pp: Process)
      requires RingOf(pp) && Stated()
      modifies pp.ring`flags
      ensures Stated() && forall p <- pp.ring :: Alike(p.flags, old(p.flags))
    {
      ghost var r := RoundOf(pp);
      MarkReported(pp, r);
      forall p | p in pp.ring ensures Sound(p.flags) && Alike(p.flags, old(p.flags)) {
        if Stopped in old(p.flags) {
          ReportedSound(old(p.flags));
        }
      }
    }

    /** A job that stops becomes the current one; one that ends is no longer current or previous. */
    method Rename(fp: Process, stopped: bool)
      requires Listed() && Pointed() && Leads(fp)
      modifies this`pcurrent, this`pprevious
      ensures Pointed()
      ensures stopped ==> pcurrent == fp
      ensures stopped && old(pcurrent) != null && old(pcurrent) != fp ==> pprevious == old(pcurrent)
      ensures stopped && (old(pcurrent) == null || old(pcurrent) == fp) ==> pprevious == old(pprevious)
      ensures !stopped ==> pcurrent != fp && pprevious != fp
      ensures !stopped && old(pcurrent) != fp ==> pcurrent == old(pcurrent)
    {
      if stopped {
        if pcurrent != null && pcurrent != fp {
          pprevious := pcurrent;
        }
        pcurrent := fp;
      } else {
        Pclrcurr(fp);
      }
    }

    method MarkNote(fp: Process)
      requires fp in procs && Stated()
      modifies fp`flags
      ensures Stated() && Alike(fp.flags, old(fp.flags)) && NeedNote in fp.flags
    {
      NoteSound(fp.flags);
      fp.flags := fp.flags + {NeedNote};
    }

    /** What happens to a job that has ended or stopped: it is flushed at once if it was in the background, has
        ended and is to be told of at once; otherwise a background job is marked to be told of later. */
    method Dispose(pp: Process, fp: Process, jobflags: set<Flag>, notify: bool)
      requires Valid() && pp in procs && pp.pid != 0 && pp.ring != [] && fp == pp.ring[0] && Leads(fp)
      requires Stopped !in jobflags ==> pcurrent != fp && pprevious != fp
      modifies this`pcurrent, this`pprevious, this`pcurrjob, this`pmaxindex
      modifies pp.ring`index, pp.ring`pid, pp.ring`flags
      ensures Valid()
      ensures forall p <- pp.ring :: Alike(p.flags, old(p.flags))
      ensures if Foregnd !in jobflags && Stopped !in jobflags && (Notify in jobflags || notify)
        then forall p <- pp.ring :: p.pid == 0
        else forall p <- pp.ring :: p.pid == old(p.pid) && p.index == old(p.index)
      ensures pcurrent == old(pcurrent) && pprevious == old(pprevious)
    {
      assert RingOf(pp);
      if Foregnd in jobflags {
      } else if Notify in jobflags || notify {
        if Stopped !in jobflags {
          Pflush(pp);
        }
      } else {
        MarkNote(fp);
      }
    }

    /** The stopped processes of the job have been reported, and it is made the current one or none. */
    method SettleNames(pp: Process, stopped: bool) returns (fp: Process)
      requires Valid() && pp in procs && pp.pid != 0
      modifies this`pcurrent, this`pprevious, pp.ring`flags
      ensures Valid() && pp.ring != [] && fp == pp.ring[0] && Leads(fp)
      ensures forall p <- pp.ring :: Alike(p.flags, old(p.flags))
      ensures stopped ==> pcurrent == fp
      ensures stopped && old(pcurrent) != null && old(pcurrent) != fp ==> pprevious == old(pcurrent)
      ensures stopped && (old(pcurrent) == null || old(pcurrent) == fp) ==> pprevious == old(pprevious)
      ensures !stopped ==> pcurrent != fp && pprevious != fp
      ensures !stopped && old(pcurrent) != fp ==> pcurrent == old(pcurrent)
    {
      assert RingOf(pp);
      ReportStopped(pp);
      fp := Leader(pp);
      Rename(fp, stopped);
    }

    /** The current and the previous job, when this one has just stopped, or ended. */
    ghost predicate Named(current: Process?, previous: Process?, fp: Process, stopped: bool)
      reads this
    {
      if stopped then
        && pcurrent == fp
        && pprevious == if current != null && current != fp then current else previous
      else pcurrent != fp && pprevious != fp && (current != fp ==> pcurrent == current)
    }

    /** The second half of `pchild`, for a job of which no process runs and none has been reported. */
    method Settle(pp: Process, jobflags: set<Flag>, notify: bool)
      requires Valid() && pp in procs && pp.pid != 0 && pp.ring != []
      modifies this`pcurrent, this`pprevious, this`pcurrjob, this`pmaxindex
      modifies pp.ring`index, pp.ring`pid, pp.ring`flags
      ensures Valid()
      ensures forall p <- pp.ring :: Alike(p.flags, old(p.flags))
      ensures if Foregnd !in jobflags && Stopped !in jobflags && (Notify in jobflags || notify)
        then forall p <- pp.ring :: p.pid == 0
        else forall p <- pp.ring :: p.pid == old(p.pid) && p.index == old(p.index)
      ensures Named(old(pcurrent), old(pprevious), pp.ring[0], Stopped in jobflags)
    {
      var fp := SettleNames(pp, Stopped in jobflags);
      Dispose(pp, fp, jobflags, notify);
    }

    /** A process of the job runs or is stopped. */
    ghost predicate Alive(r: seq<Process>)
      reads r`flags
    {
      Some(r, Running) || Some(r, Stopped)
    }

    twostate lemma SameSome(r: seq<Process>)
      requires forall p <- r :: Alike(p.flags, old(p.flags))
      ensures forall s <- STATES :: Some(r, s) <==> old(Some(r, s))
    {
      forall p | p in r ensures forall s <- STATES :: s in p.flags <==> s in old(p.flags) {
        SameStates(p.flags, old(p.flags));
      }
    }

    /** The flags of the job say nothing new as long as a process of it runs or has been reported; otherwise
        it has stopped or ended. */
    method Conclude(pp: Process, jobflags: set<Flag>, notify: bool)
      requires Valid() && pp in procs && pp.pid != 0 && RingOf(pp)
      requires forall f <- {Running, Stopped, Reported} :: f in jobflags <==> Some(pp.ring, f)
      modifies this`pcurrent, this`pprevious, this`pcurrjob, this`pmaxindex
      modifies pp.ring`index, pp.ring`pid, pp.ring`flags
      ensures Valid() && pp.ring != []
      ensures forall p <- pp.ring :: Alike(p.flags, old(p.flags))
      ensures !old(Alive(pp.ring)) ==> pcurrent != pp.ring[0] && pprevious != pp.ring[0]
      ensures if !old(Alive(pp.ring)) && Foregnd !in jobflags && (Notify in jobflags || notify)
        then forall p <- pp.ring :: p.pid == 0
        else forall p <- pp.ring :: p.pid == old(p.pid) && p.index == old(p.index)
      ensures old(Some(pp.ring, Running) || Some(pp.ring, Reported)) ==>
        pcurrent == old(pcurrent) && pprevious == old(pprevious)
      ensures !old(Some(pp.ring, Running) || Some(pp.ring, Reported)) ==>
        Named(old(pcurrent), old(pprevious), pp.ring[0], old(Some(pp.ring, Stopped)))
    {
      if Running !in jobflags && Reported !in jobflags {
        Settle(pp, jobflags, notify);
      } else if Running !in jobflags {
        ghost var p :| p in pp.ring && Reported in p.flags;
        assert Sound(p.flags);
      }
    }

    /** What `pchild` does once it has found the process. */
    method Reap(pp: Process, w: Wait, slow: set<Process>, notify: bool)
      requires Valid() && pp in procs && pp.pid != 0 && (Running in pp.flags || Stopped in pp.flags)
      modifies this`pcurrent, this`pprevious, this`pcurrjob, this`pmaxindex
      modifies pp.ring`index, pp.ring`pid, pp.ring`flags
      ensures Valid() && pp.ring != [] && pp in procs && Tells(pp.flags, w, Dumped in old(pp.flags))
      ensures forall p <- pp.ring :: p != pp ==> Alike(p.flags, old(p.flags))
      ensures !Alive(pp.ring) ==> pcurrent != pp.ring[0] && pprevious != pp.ring[0]
      ensures if !Alive(pp.ring) && !old(Some(pp.ring, Foregnd)) && (old(Some(pp.ring, Notify)) || notify)
        then forall p <- pp.ring :: p.pid == 0
        else forall p <- pp.ring :: p.pid == old(p.pid) && p.index == old(p.index)
      ensures old(Busy(pp.ring, pp)) ==> pcurrent == old(pcurrent) && pprevious == old(pprevious)
      ensures !old(Busy(pp.ring, pp)) ==> Named(old(pcurrent), old(pprevious), pp.ring[0], Some(pp.ring, Stopped))
    {
      hide Some, Busy, Named, Tells, Sound;
      assert RingOf(pp);
      var jobflags := TakeState(pp, w, slow);
      label taken:
      Conclude(pp, jobflags, notify);
      SameSome@taken(pp.ring);
      TellsToo(pp.flags, old@taken(pp.flags), w, Dumped in old(pp.flags));
    }

    method Lookup(pid: int) returns (pp: Process?)
      requires Listed()
      ensures pp == null ==> forall p <- procs :: p.pid != pid
      ensures pp != null ==> pp in procs && pp.pid == pid
    {
      pp := proclist.next;
      ghost var k := 0;
      while pp != null && pid != pp.pid
        invariant k <= |procs| && pp == AtOrNull(procs, k) && forall j :: 0 <= j < k ==> procs[j].pid != pid
        decreases |procs| - k
      {
        pp, k := pp.next, k + 1;
      }
    }

    /** `pchild`, for one process that `wait3` tells of: if it is known, its state is taken; no other process
        changes its state, and none outside its job is touched. If no other process of its job runs or has been
        reported, the job has stopped, and is the current one, or it is over. A job that is over is neither current nor
        previous, and it is flushed exactly if it was in the background and is to be told of at once; no job
        is flushed while a process of it runs or is stopped. */
    method Pchild(pid: int, w: Wait, slow: set<Process>, notify: bool) returns (pp: Process?)
      requires Valid() && pid > 0 && forall p <- procs :: p.pid == pid ==> Running in p.flags || Stopped in p.flags
      modifies this`pcurrent, this`pprevious, this`pcurrjob, this`pmaxindex, procs`index, procs`pid, procs`flags
      ensures Valid()
      ensures pp == null ==> pcurrent == old(pcurrent) && pprevious == old(pprevious) && pcurrjob == old(pcurrjob)
      ensures pp == null ==> forall p <- procs :: p.pid != pid && p.index == old(p.index) && p.pid == old(p.pid)
      ensures pp == null ==> forall p <- procs :: p.flags == old(p.flags)
      ensures pp != null ==> pp in procs && old(pp.pid) == pid && pp.ring != []
      ensures pp != null ==> Tells(pp.flags, w, Dumped in old(pp.flags))
      ensures pp != null ==> forall p <- procs :: p !in pp.ring ==>
        p.index == old(p.index) && p.pid == old(p.pid) && p.flags == old(p.flags)
      ensures pp != null ==> forall p <- pp.ring :: p != pp ==> Alike(p.flags, old(p.flags))
      ensures pp != null && !Alive(pp.ring) ==> pcurrent != pp.ring[0] && pprevious != pp.ring[0]
      ensures pp != null && old(Busy(pp.ring, pp)) ==> pcurrent == old(pcurrent) && pprevious == old(pprevious)
      ensures pp != null && !old(Busy(pp.ring, pp)) ==>
        Named(old(pcurrent), old(pprevious), pp.ring[0], Some(pp.ring, Stopped))
      ensures pp != null ==>
        if !Alive(pp.ring) && !old(Some(pp.ring, Foregnd)) && (old(Some(pp.ring, Notify)) || notify)
        then forall p <- pp.ring :: p.pid == 0
        else forall p <- pp.ring :: p.pid == old(p.pid) && p.index == old(p.index)
    {
      pp := Lookup(pid);
      if pp != null {
        assert RingOf(pp);
        Reap(pp, w, slow, notify);
      }
    }

    method ResumeJob(pp: Process, foregnd: bool)
      requires RingOf(pp) && pp.ring[0] == pp && Stated()
      modifies pp.ring`flags
      ensures Stated() && forall p <- pp.ring :: p.flags == Resumed(old(p.flags), foregnd)
    {
      Resume(pp, foregnd, pp.ring);
      forall p | p in pp.ring ensures Sound(p.flags) {
        ResumedSound(old(p.flags), foregnd);
      }
    }

    method Regard(pp: Process, foregnd: bool)
      requires Listed() && Pointed() && Leads(pp)
      modifies this`pcurrent, this`pprevious
      ensures Pointed()
      ensures foregnd ==> pcurrent == old(pcurrent) && pprevious == old(pprevious)
      ensures !foregnd ==> pcurrent != pp && pprevious != pp
    {
      if !foregnd {
        Pclrcurr(pp);
      }
    }

    /** `pstart`: the stopped processes of a job run again; a job put into the background is neither current
        nor previous. */
    method Pstart(pp: Process, foregnd: bool)
      requires Valid() && Leads(pp)
      modifies this`pcurrent, this`pprevious, pp.ring`flags
      ensures Valid() && pp in pp.ring && forall p <- pp.ring :: p.flags == Resumed(old(p.flags), foregnd)
      ensures foregnd ==> pcurrent == old(pcurrent) && pprevious == old(pprevious)
      ensures !foregnd ==> pcurrent != pp && pprevious != pp
    {
      hide Resumed, Sound;
      LeaderPid(pp);
      ResumeJob(pp, foregnd);
      Regard(pp, foregnd);
    }

    /** `pendjob`: the next process starts a new job, and no job is put aside. */
    method Pendjob()
      requires Valid()
      modifies this`pcurrjob, this`pholdjob
      ensures Valid() && pcurrjob == null && pholdjob == null
    {
      pholdjob, pcurrjob := null, null;
    }

    /** `psavejob`: the job that is being built is put aside, and the next process starts another. */
    method Psavejob()
      requires Valid()
      modifies this`pcurrjob, this`pholdjob
      ensures Valid() && pcurrjob == null && pholdjob == old(pcurrjob)
    {
      pholdjob, pcurrjob := pcurrjob, null;
    }

    /** `prestjob`: it goes on being built. The table is valid then exactly if the job has not been flushed. */
    method Prestjob()
      requires Valid()
      modifies this`pcurrjob, this`pholdjob
      ensures pcurrjob == old(pholdjob) && pholdjob == null
      ensures Valid() <==> old(pholdjob == null || Leads(pholdjob))
    {
      pcurrjob, pholdjob := pholdjob, null;
    }

    /** The first k processes of ps have been looked at, and the list goes through `kept` on to the others. */
    ghost predicate Sweeping(ps: seq<Process>, k: nat, kept: seq<Process>, fp: Process)
      requires k <= |ps|
      reads proclist`next, kept`next, ps`next
    {
      && (if kept == [] then fp == proclist && fp.next == AtOrNull(ps, k)
          else fp == kept[|kept| - 1] && fp.next == AtOrNull(ps, k) && proclist.next == kept[0])
      && (forall j {:trigger kept[j].next} :: 0 <= j < |kept| - 1 ==> kept[j].next == kept[j + 1])
      && (forall j {:trigger ps[j].next} :: k <= j < |ps| ==> ps[j].next == AtOrNull(ps, j + 1))
      && Distinct(kept) && Distinct(ps) && proclist !in ps && (forall p <- kept :: p in ps[..k])
    }

    lemma Ahead(ps: seq<Process>, k: nat, p: Process)
      requires k <= |ps| && Distinct(ps) && p in ps[..k]
      ensures forall j :: k <= j < |ps| ==> ps[j] != p
    {
      var i: nat :| i < k && ps[..k][i] == p;
      forall j: nat | k <= j < |ps| ensures ps[j] != p {
        DistinctAt(ps, i, j);
      }
    }

    /** The process at place k stays. */
    lemma SweepOn(ps: seq<Process>, k: nat, kept: seq<Process>, fp: Process)
      requires k < |ps| && Sweeping(ps, k, kept, fp)
      ensures Sweeping(ps, k + 1, kept + [ps[k]], ps[k])
    {
      var kept' := kept + [ps[k]];
      forall p | p in kept' ensures p in ps[..k + 1] {
        if p in kept {
          assert ps[..k + 1][..k] == ps[..k];
        } else {
          assert ps[..k + 1][k] == p;
        }
      }
      if ps[k] in kept {
        Ahead(ps, k, ps[k]);
      }
      DistinctMore(kept, ps[k]);
    }

    /** `fp->p_next = pp->p_next`: the process at place k goes. */
    method Unlink(ghost ps: seq<Process>, ghost k: nat, ghost kept: seq<Process>, fp: Process, pp: Process)
      requires k < |ps| && Sweeping(ps, k, kept, fp) && pp == ps[k]
      modifies fp`next
      ensures Sweeping(ps, k + 1, kept, fp)
    {
      if kept != [] {
        Ahead(ps, k, fp);
        forall j: nat | j < |kept| - 1 ensures kept[j] != fp {
          DistinctAt(kept, j, |kept| - 1);
        }
      }
      fp.next := pp.next;
      assert ps[..k + 1][..k] == ps[..k];
    }

    /** The end of the walk. */
    lemma SweptList(ps: seq<Process>, kept: seq<Process>, fp: Process)
      requires Sweeping(ps, |ps|, kept, fp)
      ensures proclist !in kept && Distinct(kept) && proclist.next == AtOrNull(kept, 0)
      ensures forall k {:trigger kept[k].next} :: 0 <= k < |kept| ==> kept[k].next == AtOrNull(kept, k + 1)
    {
      assert ps[..|ps|] == ps;
    }

    method SweepTurn(ghost ps: seq<Process>, ghost k: nat, ghost kept0: seq<Process>, fp0: Process, pp: Process)
      returns (fp: Process, ghost kept: seq<Process>)
      requires k < |ps| && Sweeping(ps, k, kept0, fp0) && pp == ps[k] && kept0 == Unflushed(ps[..k])
      modifies fp0`next
      ensures Sweeping(ps, k + 1, kept, fp) && kept == Unflushed(ps[..k + 1]) && (fp == fp0 || fp == pp)
    {
      hide Unflushed;
      UnflushedMore(ps, k);
      if pp.pid == 0 {
        Unlink(ps, k, kept0, fp0, pp);
        fp, kept := fp0, kept0;
      } else {
        SweepOn(ps, k, kept0, fp0);
        fp, kept := pp, kept0 + [pp];
      }
    }

    /** The loop of `pwait`: flushed processes leave the list. */
    method SweepLoop(ghost ps: seq<Process>) returns (fp: Process, ghost kept: seq<Process>)
      requires Sweeping(ps, 0, [], proclist) && ps == procs
      modifies proclist`next, ps`next
      ensures Sweeping(ps, |ps|, kept, fp) && kept == Unflushed(ps)
    {
      hide Unflushed;
      fp, kept := proclist, [];
      NoneUnflushed();
      assert ps[..0] == [];
      var pp := fp.next;
      ghost var k: nat := 0;
      while pp != null
        invariant k <= |ps| && pp == AtOrNull(ps, k) && procs == ps && (fp == proclist || fp in ps)
        invariant Sweeping(ps, k, kept, fp) && kept == Unflushed(ps[..k])
        decreases |ps| - k
      {
        fp, kept := SweepTurn(ps, k, kept, fp, pp);
        pp, k := fp.next, k + 1;
      }
      assert ps[..k] == ps;
    }

    method Sweep()
      requires Listed()
      modifies proclist`next, procs`next, this`procs
      ensures Listed() && procs == Unflushed(old(procs))
    {
      ghost var ps := procs;
      var fp;
      ghost var kept;
      fp, kept := SweepLoop(ps);
      SweptList(ps, kept, fp);
      procs := kept;
    }

    /** The flushed processes have left the table, and nothing else has changed. */
    twostate predicate Swept()
      reads *
    {
      && (forall p <- procs :: p in old(procs) && p.pid != 0) && (forall p <- old(procs) :: p.pid != 0 ==> p in procs)
      && (forall p :: p in old(procs) ==> p.pid == old(p.pid) && p.index == old(p.index) && p.jobid == old(p.jobid))
      && forall p :: p in old(procs) ==> p.ring == old(p.ring) && p.friends == old(p.friends) && p.flags == old(p.flags)
    }

    twostate lemma SweptRings()
      requires old(Rings()) && old(Jobs()) && Swept()
      ensures Rings() && Jobs()
    {
      forall p | p in procs ensures RingOf(p) && JobOf(p) {
        assert old(RingOf(p)) && old(JobOf(p));
        forall q | q in p.ring ensures q in procs {
          assert old(JobOf(q));
        }
      }
      forall p, q | p in procs && q in procs ensures NotMixed(p, q) {
        assert old(NotMixed(p, q));
      }
    }

    twostate lemma SweptNames()
      requires old(Jobs()) && old(Topped()) && old(Pointed()) && old(Stated()) && Swept()
      requires pmaxindex == old(pmaxindex) && pcurrent == old(pcurrent) && pprevious == old(pprevious)
      requires pcurrjob == old(pcurrjob)
      ensures Topped() && Pointed() && Stated()
    {
      if pmaxindex > 0 {
        var p :| p in old(procs) && old(p.index) == pmaxindex;
        assert old(JobOf(p));
        assert p in procs;
      }
    }

    /** The part of `pwait` that frees processes: those that have been flushed, and only those, leave the
        table. */
    method Pwait()
      requires Valid()
      modifies proclist`next, procs`next, this`procs
      ensures Valid() && procs == Unflushed(old(procs))
    {
      Sweep();
      SweptRings();
      SweptNames();
    }

    /** The rings partition the table, and those of different jobs that are not flushed have different
        numbers. */
    lemma Partition(p: Process, q: Process)
      requires Valid() && p in procs && q in procs
      ensures p in p.ring && (q in p.ring <==> q.ring == p.ring)
      ensures p.pid != 0 && q.pid != 0 ==> (p.ring == q.ring <==> p.index == q.index)
      ensures p.pid != 0 ==> 0 < p.index <= pmaxindex && p.jobid > 0
    {
      assert RingOf(p) && RingOf(q) && JobOf(p) && JobOf(q) && NotMixed(p, q);
    }

    /** Every job that is not flushed has exactly one leader, and the current and previous jobs are two of
        them. */
    lemma OneLeader(p: Process)
      requires Valid() && p in procs && p.pid != 0
      ensures exists l <- p.ring :: Leads(l) && forall m <- p.ring :: Leads(m) ==> m == l
      ensures p == pcurrent ==> Leads(p) && (pprevious != null ==> pprevious.index != p.index)
    {
      LeaderPid(p);
      LeadsAlone(p.ring[0]);
      assert p.ring[0] in p.ring;
      if p == pcurrent && pprevious != null {
        LeaderPid(pprevious);
        assert NotMixed(p, pprevious);
        LeadsAlone(p);
        assert pprevious in pprevious.ring;
      }
    }

    /** A process has one state, and no other. */
    lemma OneState(p: Process, s: Flag, t: Flag)
      requires Valid() && p in procs && s in STATES && t in STATES && s in p.flags && t in p.flags
      ensures s == t
    {
      assert Sound(p.flags);
      assert s in p.flags * STATES && t in p.flags * STATES;
    }
  }
}
