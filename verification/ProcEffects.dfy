/** What each call of schproj/proc.c leaves in the table, slot by slot and field by field, and what
    Wait and Exit do for each other. */
module ProcEffects {
  import opened ProcTableModel

  /** Slot k is the first that has this pid. */
  predicate FirstWith(ps: seq<Proc>, pid: int, k: nat) {
    k < |ps| && ps[k].pid == pid && forall i :: 0 <= i < k ==> ps[i].pid != pid
  }

  predicate FirstFree(ps: seq<Proc>, k: nat) {
    k < |ps| && ps[k].state == UNUSED && forall i :: 0 <= i < k ==> ps[i].state != UNUSED
  }

  /** Slot z is the first child of slot w that is a zombie. */
  predicate FirstZombie(ps: seq<Proc>, w: nat, z: nat) {
    && z < |ps| && ps[z].parent == w && ps[z].state == ZOMBIE
    && forall i :: 0 <= i < z ==> ps[i].parent != w || ps[i].state != ZOMBIE
  }

  /** The same in every slot but k. */
  predicate OnlyAt(ps: seq<Proc>, qs: seq<Proc>, k: nat) {
    |qs| == |ps| && k < |ps| && forall i :: 0 <= i < |ps| && i != k ==> qs[i] == ps[i]
  }

  /** A child has size, directory and name of its parent, time and priority as asked for, and of its
      slot the channel and whether it is killed. */
  lemma ForkedChild(s: State, pid: int, time: int, prio: int, f: nat, k: nat)
    requires FirstWith(s.ps, pid, f) && FirstFree(s.ps, k)
    ensures var (t, r) := Fork(s, pid, time, prio);
            && r == s.next && t.next == s.next + 1 && t.init == s.init && OnlyAt(s.ps, t.ps, k)
            && t.ps[k].pid == r && t.ps[k].state == RUNNABLE && t.ps[k].parent == f
            && t.ps[k].prio == prio && t.ps[k].timeToC == time
            && t.ps[k].sz == s.ps[f].sz && t.ps[k].cwd == s.ps[f].cwd && t.ps[k].name == s.ps[f].name
            && t.ps[k].chan == s.ps[k].chan && t.ps[k].killed == s.ps[k].killed
  {
    FindPidIs(s.ps, pid, f);
    FindUnusedIs(s.ps, k);
  }

  /** Without such slots Fork answers -1 and changes nothing. */
  lemma ForkRefused(s: State, pid: int, time: int, prio: int)
    requires (forall i :: 0 <= i < |s.ps| ==> s.ps[i].pid != pid) || Full(s.ps)
    ensures Fork(s, pid, time, prio) == (s, -1)
  {
    if forall i :: 0 <= i < |s.ps| ==> s.ps[i].pid != pid { FindPidIs(s.ps, pid, |s.ps|); }
  }

  lemma SleepSets(s: State, pid: int, chan: int, k: nat)
    requires FirstWith(s.ps, pid, k)
    ensures var (t, r) := Sleep(s, pid, chan);
            && r == pid && t.init == s.init && t.next == s.next && OnlyAt(s.ps, t.ps, k)
            && t.ps[k].state == SLEEPING && t.ps[k].chan == chan
            && t.ps[k].(state := s.ps[k].state, chan := s.ps[k].chan) == s.ps[k]
  {
    FindPidIs(s.ps, pid, k);
  }

  /** Sleep, Kill and Wait on a pid that is not there. */
  lemma NobodyThere(s: State, pid: int, chan: int)
    requires forall i :: 0 <= i < |s.ps| ==> s.ps[i].pid != pid
    ensures Sleep(s, pid, chan) == (s, -3) && Wait(s, pid) == (s, -3)
    ensures Kill(s, pid) == (s, -1) && Exit(s, pid) == (s, -2)
  {
    FindPidIs(s.ps, pid, |s.ps|);
  }

  /** Wakeup makes the sleepers on the channel runnable, and nothing else. */
  lemma WakeupWakes(s: State, chan: int, i: nat)
    requires i < |s.ps|
    ensures var t := Step(s, WakeupOp(chan)).0;
            && |t.ps| == |s.ps| && t.init == s.init && t.next == s.next
            && t.ps[i].state == (if s.ps[i].state == SLEEPING && s.ps[i].chan == chan then RUNNABLE else s.ps[i].state)
            && t.ps[i].(state := UNUSED) == s.ps[i].(state := UNUSED)
  {
  }

  /** Kill marks the process and wakes it. */
  lemma KillMarks(s: State, pid: int, k: nat)
    requires FirstWith(s.ps, pid, k)
    ensures var (t, r) := Kill(s, pid);
            && r == 0 && t.init == s.init && t.next == s.next && OnlyAt(s.ps, t.ps, k)
            && t.ps[k].killed
            && t.ps[k].state == (if s.ps[k].state == SLEEPING then RUNNABLE else s.ps[k].state)
            && t.ps[k].(state := UNUSED, killed := true) == s.ps[k].(state := UNUSED, killed := true)
  {
    FindPidIs(s.ps, pid, k);
  }

  /** Wait with a zombie child: the first one goes, and its pid is the answer. */
  lemma WaitReaps(s: State, pid: int, w: nat, z: nat)
    requires FirstWith(s.ps, pid, w) && FirstZombie(s.ps, w, z)
    ensures var (t, r) := Wait(s, pid);
            && r == s.ps[z].pid && t.init == s.init && t.next == s.next && OnlyAt(s.ps, t.ps, z)
            && t.ps[z].state == UNUSED && t.ps[z].pid == 0 && t.ps[z].parent == -1 && t.ps[z].name == ""
            && !t.ps[z].killed
  {
    FindPidIs(s.ps, pid, w);
    FindZombieIs(s.ps, w, z);
  }

  /** Wait without one: -1 and no change without children or when killed, else asleep on the own pid
      and -2. */
  lemma WaitWithoutZombie(s: State, pid: int, w: nat)
    requires FirstWith(s.ps, pid, w) && forall i :: 0 <= i < |s.ps| ==> s.ps[i].parent != w || s.ps[i].state != ZOMBIE
    ensures var (t, r) := Wait(s, pid);
            if s.ps[w].killed || forall i :: 0 <= i < |s.ps| ==> s.ps[i].parent != w then t == s && r == -1
            else
              && r == -2 && OnlyAt(s.ps, t.ps, w) && t.ps[w].state == SLEEPING && t.ps[w].chan == pid
              && t.init == s.init && t.next == s.next
              && t.ps[w].(state := s.ps[w].state, chan := s.ps[w].chan) == s.ps[w]
  {
    FindPidIs(s.ps, pid, w);
    FindZombieIs(s.ps, w, |s.ps|);
  }

  /** Exit, slot by slot: the process and its children are zombies, the children the first process's;
      of the others those asleep on the parent's pid run, and no more is changed. */
  lemma ExitEnds(s: State, pid: int, e: nat, i: nat)
    requires FirstWith(s.ps, pid, e) && e != s.init && 0 <= s.ps[e].parent < |s.ps| && i < |s.ps|
    ensures var (t, r) := Exit(s, pid);
            var q, parent := s.ps[i], s.ps[s.ps[e].parent];
            && r == 0 && |t.ps| == |s.ps| && t.init == s.init && t.next == s.next
            && (q.parent == e ==> t.ps[i] == q.(parent := s.init, state := ZOMBIE))
            && (q.parent != e && i == e ==> t.ps[i] == q.(state := ZOMBIE))
            && (q.parent != e && i != e ==>
                  t.ps[i] == if q.state == SLEEPING && q.chan == parent.pid then q.(state := RUNNABLE) else q)
  {
    FindPidIs(s.ps, pid, e);
  }

  /** The first process does not exit. */
  lemma InitStays(s: State, pid: int)
    requires s.init < |s.ps| && FirstWith(s.ps, pid, s.init)
    ensures Exit(s, pid) == (s, -1)
  {
    FindPidIs(s.ps, pid, s.init);
  }

  /** After an Exit nobody sleeps on the parent's pid. */
  lemma NobodyWaitsOn(s: State, pid: int, e: nat)
    requires FirstWith(s.ps, pid, e) && e != s.init && 0 <= s.ps[e].parent < |s.ps|
    ensures var t := Exit(s, pid).0;
            |t.ps| == |s.ps|
            && forall i :: 0 <= i < |t.ps| && t.ps[i].state == SLEEPING ==> t.ps[i].chan != s.ps[s.ps[e].parent].pid
  {
    var t := Exit(s, pid).0;
    ExitEnds(s, pid, e, e);
    forall i | 0 <= i < |t.ps| && t.ps[i].state == SLEEPING ensures t.ps[i].chan != s.ps[s.ps[e].parent].pid {
      ExitEnds(s, pid, e, i);
    }
  }

  /** A Wait that went to sleep is woken by the Exit of a child, and the next Wait reaps. */
  lemma WaitExitWait(s: State, pid: int, child: int, w: nat, e: nat)
    requires Valid(s) && pid != 0 && Wait(s, pid).1 == -2 && FirstWith(s.ps, pid, w)
    requires FirstWith(s.ps, child, e) && s.ps[e].parent == w && e != w && child != 0
    ensures var t := Wait(s, pid).0;
            var (u, r) := Exit(t, child);
            r == 0 && w < |u.ps| && u.ps[w].state != SLEEPING && Wait(u, pid).1 > 0
  {
    var t := Wait(s, pid).0;
    SleptAt(s, pid, w);
    SameFirstAs(s, t, w, child, e);
    SameFirstAs(s, t, w, pid, w);
    var u := Exit(t, child).0;
    WaitKeeps(s, pid);
    NotFirst(s, e);
    hide Wait, Exit;
    ExitEnds(t, child, e, e);
    ExitEnds(t, child, e, w);
    ExitValid(t, child);
    ZombieReaped(t, u, pid, w, e);
  }

  lemma SleptAt(s: State, pid: int, w: nat)
    requires Valid(s) && FirstWith(s.ps, pid, w) && Wait(s, pid).1 == -2
    ensures var t := Wait(s, pid).0;
            && OnlyAt(s.ps, t.ps, w) && t.ps[w].state == SLEEPING && t.ps[w].chan == pid && t.init == s.init
            && t.ps[w].pid == pid && t.ps[w].parent == s.ps[w].parent
  {
    FindPidIs(s.ps, pid, w);
    var z := FindZombie(s.ps, w);
    assert forall i :: 0 <= i < NPROC ==> SlotOk(s.ps[i], s.next);
    if z == |s.ps| { WaitWithoutZombie(s, pid, w); }
  }

  lemma SameFirstAs(s: State, t: State, w: nat, pid: int, k: nat)
    requires OnlyAt(s.ps, t.ps, w) && t.ps[w].pid == s.ps[w].pid && FirstWith(s.ps, pid, k)
    ensures FirstWith(t.ps, pid, k)
  {
    assert forall i :: 0 <= i < |s.ps| ==> t.ps[i].pid == s.ps[i].pid;
  }

  lemma NotFirst(s: State, e: nat)
    requires Valid(s) && e < |s.ps| && s.ps[e].parent >= 0
    ensures e != s.init
  {
  }

  lemma ZombieReaped(t: State, u: State, pid: int, w: nat, e: nat)
    requires Valid(u) && SamePids(t.ps, u.ps) && pid != 0 && FirstWith(t.ps, pid, w)
    requires e < |u.ps| && u.ps[e].parent == w && u.ps[e].state == ZOMBIE
    ensures Wait(u, pid).1 > 0
  {
    assert forall i :: 0 <= i < |t.ps| ==> u.ps[i].pid == t.ps[i].pid;
    FindPidIs(u.ps, pid, w);
    var z := FindZombie(u.ps, w);
    assert z < |u.ps|;
    assert SlotOk(u.ps[z], u.next);
  }
}
