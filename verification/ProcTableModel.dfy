/** schproj/proc.c as values: the table of 64 reusable process slots, each call as a function
    of it, and what every run of calls keeps. */
module ProcTableModel {

  const NPROC := 64
  const PGSIZE := 4096

  datatype Procstate = UNUSED | EMBRYO | SLEEPING | RUNNABLE | RUNNING | ZOMBIE

  /** A struct proc; parent is a slot number, or -1 for null. */
  datatype Proc = Proc(sz: nat, state: Procstate, pid: int, parent: int, chan: int, killed: bool,
                       cwd: string, name: string, prio: int, timeToC: int)

  const EMPTY := Proc(0, UNUSED, 0, -1, 0, false, "", "", 0, 0)

  datatype State = State(ps: seq<Proc>, init: nat, next: int)

  // ---------- the calls ----------

  /** findproc, and Kill's loop: the first slot with this pid, or |ps|. */
  function FindPid(ps: seq<Proc>, pid: int): (k: nat)
    ensures k <= |ps| && (k < |ps| ==> ps[k].pid == pid) && forall i :: 0 <= i < k ==> ps[i].pid != pid
    decreases |ps|
  {
    if ps == [] || ps[0].pid == pid then 0 else 1 + FindPid(ps[1..], pid)
  }

  /** allocproc's loop: the first unused slot, or |ps|. */
  function FindUnused(ps: seq<Proc>): (k: nat)
    ensures k <= |ps| && (k < |ps| ==> ps[k].state == UNUSED) && forall i :: 0 <= i < k ==> ps[i].state != UNUSED
    decreases |ps|
  {
    if ps == [] || ps[0].state == UNUSED then 0 else 1 + FindUnused(ps[1..])
  }

  /** Wait's loop: the first zombie whose parent is slot w, or |ps|. */
  function FindZombie(ps: seq<Proc>, w: nat): (k: nat)
    ensures k <= |ps| && (k < |ps| ==> ps[k].parent == w && ps[k].state == ZOMBIE)
    ensures forall i :: 0 <= i < k ==> !(ps[i].parent == w && ps[i].state == ZOMBIE)
    decreases |ps|
  {
    if ps == [] || (ps[0].parent == w && ps[0].state == ZOMBIE) then 0 else 1 + FindZombie(ps[1..], w)
  }

  predicate HasKids(ps: seq<Proc>, w: nat) {
    exists i :: 0 <= i < |ps| && ps[i].parent == w
  }

  function Wake(p: Proc): Proc {
    if p.state == SLEEPING then p.(state := RUNNABLE) else p
  }

  /** wakeup1 */
  function Woken(ps: seq<Proc>, chan: int): (r: seq<Proc>)
    ensures |r| == |ps| && forall i :: 0 <= i < |r| ==> r[i] == if ps[i].chan == chan then Wake(ps[i]) else ps[i]
  {
    seq(|ps|, i requires 0 <= i < |ps| => if ps[i].chan == chan then Wake(ps[i]) else ps[i])
  }

  /** Exit's loop: the children of slot e become zombies of the first process. */
  function Abandoned(ps: seq<Proc>, e: nat, init: nat): (r: seq<Proc>)
    ensures |r| == |ps|
    ensures forall i :: 0 <= i < |r| ==>
        r[i] == if ps[i].parent == e then ps[i].(parent := init, state := ZOMBIE) else ps[i]
  {
    seq(|ps|, i requires 0 <= i < |ps| => if ps[i].parent == e then ps[i].(parent := init, state := ZOMBIE) else ps[i])
  }

  function Child(p: Proc, parent: nat, pid: int, time: int, prio: int, slot: Proc): Proc {
    slot.(state := RUNNABLE, pid := pid, sz := p.sz, parent := parent, cwd := p.cwd, name := p.name, prio := prio,
          timeToC := time)
  }

  function Fork(s: State, pid: int, time: int, prio: int): (State, int) {
    var f, k := FindPid(s.ps, pid), FindUnused(s.ps);
    if f == |s.ps| || k == |s.ps| then (s, -1)
    else (State(s.ps[k := Child(s.ps[f], f, s.next, time, prio, s.ps[k])], s.init, s.next + 1), s.next)
  }

  /** exit_proc->parent->pid: every process but the first has a parent. */
  function ParentPid(ps: seq<Proc>, e: nat): int
    requires e < |ps|
  {
    if 0 <= ps[e].parent < |ps| then ps[ps[e].parent].pid else 0
  }

  /** The parent of slot e is woken, its children are abandoned, and it is a zombie. */
  function Exited(ps: seq<Proc>, e: nat, init: nat): (qs: seq<Proc>)
    requires e < |ps|
    ensures |qs| == |ps| && forall i :: 0 <= i < |qs| ==> qs[i].parent == ps[i].parent || qs[i].parent == init
  {
    var qs := Abandoned(Woken(ps, ParentPid(ps, e)), e, init);
    qs[e := qs[e].(state := ZOMBIE)]
  }

  function Exit(s: State, pid: int): (State, int) {
    var e := FindPid(s.ps, pid);
    if e == |s.ps| then (s, -2)
    else if e == s.init then (s, -1)
    else (s.(ps := Exited(s.ps, e, s.init)), 0)
  }

  function Reaped(p: Proc): Proc {
    p.(state := UNUSED, pid := 0, parent := -1, name := "", killed := false)
  }

  function Sleep(s: State, pid: int, chan: int): (State, int) {
    var k := FindPid(s.ps, pid);
    if k == |s.ps| then (s, -3)
    else (s.(ps := s.ps[k := s.ps[k].(chan := chan, state := SLEEPING)]), pid)
  }

  function Wait(s: State, pid: int): (State, int) {
    var w := FindPid(s.ps, pid);
    if w == |s.ps| then (s, -3)
    else
      var z := FindZombie(s.ps, w);
      if z < |s.ps| then (s.(ps := s.ps[z := Reaped(s.ps[z])]), s.ps[z].pid)
      else if !HasKids(s.ps, w) || s.ps[w].killed then (s, -1)
      else (Sleep(s, pid, pid).0, -2)
  }

  function Kill(s: State, pid: int): (State, int) {
    var k := FindPid(s.ps, pid);
    if k == |s.ps| then (s, -1) else (s.(ps := s.ps[k := Wake(s.ps[k].(killed := true))]), 0)
  }

  // ---------- what every call keeps ----------

  predicate SlotOk(p: Proc, next: int) {
    && (p.state == UNUSED <==> p.pid == 0)
    && 0 <= p.pid < next
    && (p.state == UNUSED ==> p.parent == -1)
    && -1 <= p.parent < NPROC
  }

  predicate PidsDistinct(ps: seq<Proc>) {
    forall i, j :: 0 <= i < j < |ps| && ps[i].pid != 0 ==> ps[i].pid != ps[j].pid
  }

  /** A slot is unused exactly when its pid is 0; used pids are different and below next; every
      process but the first has a parent; the first is neither a zombie nor unused. */
  predicate Valid(s: State) {
    && |s.ps| == NPROC && s.init < NPROC && s.next > 1
    && (forall i :: 0 <= i < NPROC ==> SlotOk(s.ps[i], s.next))
    && PidsDistinct(s.ps)
    && s.ps[s.init].state != UNUSED && s.ps[s.init].state != ZOMBIE && s.ps[s.init].parent == -1
    && (forall i :: 0 <= i < NPROC && i != s.init && s.ps[i].parent == -1 ==> s.ps[i].state == UNUSED)
  }

  /** The processes in the table. */
  function Pids(ps: seq<Proc>): set<int> {
    set i | 0 <= i < |ps| && ps[i].pid != 0 :: ps[i].pid
  }

  /** The number of slots in use. */
  function Used(ps: seq<Proc>): nat
    decreases |ps|
  {
    if ps == [] then 0 else (if ps[0].pid != 0 then 1 else 0) + Used(ps[1..])
  }

  lemma {:induction false} UsedIsPids(ps: seq<Proc>)
    requires PidsDistinct(ps)
    ensures Used(ps) == |Pids(ps)|
    decreases |ps|
  {
    hide PidsDistinct, Pids;
    if ps == [] {
      NoPids();
    } else {
      TailPids(ps);
      UsedIsPids(ps[1..]);
    }
  }

  lemma NoPids()
    ensures Pids([]) == {}
  {
  }

  lemma TailPids(ps: seq<Proc>)
    requires PidsDistinct(ps) && ps != []
    ensures PidsDistinct(ps[1..]) && ps[0].pid !in Pids(ps[1..])
    ensures Pids(ps) == Pids(ps[1..]) + (if ps[0].pid != 0 then {ps[0].pid} else {})
  {
    var tail := ps[1..];
    assert forall i :: 1 <= i < |ps| ==> ps[i] == tail[i - 1];
    forall i, j | 0 <= i < j < |tail| && tail[i].pid != 0 ensures tail[i].pid != tail[j].pid {
      assert tail[i] == ps[i + 1] && tail[j] == ps[j + 1];
    }
  }

  lemma PidsUpdate(ps: seq<Proc>, k: nat, p: Proc)
    requires k < |ps| && PidsDistinct(ps)
    ensures Pids(ps[k := p]) == Pids(ps) - {ps[k].pid} + (if p.pid != 0 then {p.pid} else {})
  {
    var qs := ps[k := p];
    forall q | q in Pids(ps) - {ps[k].pid} ensures q in Pids(qs) {
      var i :| 0 <= i < |ps| && ps[i].pid != 0 && ps[i].pid == q;
      assert qs[i].pid == q;
    }
    if p.pid != 0 { assert qs[k].pid == p.pid; }
  }

  /** The same pids in all slots. */
  predicate SamePids(ps: seq<Proc>, qs: seq<Proc>) {
    |qs| == |ps| && forall i :: 0 <= i < |ps| ==> qs[i].pid == ps[i].pid
  }

  lemma SamePidsKept(ps: seq<Proc>, qs: seq<Proc>)
    requires SamePids(ps, qs)
    ensures Pids(qs) == Pids(ps) && (PidsDistinct(ps) ==> PidsDistinct(qs))
  {
  }

  datatype Op =
    | ForkOp(pid: int, time: int, prio: int) | ExitOp(pid: int) | WaitOp(pid: int)
    | SleepOp(pid: int, chan: int) | WakeupOp(chan: int) | KillOp(pid: int)

  function Step(s: State, op: Op): (State, int) {
    match op
    case ForkOp(pid, time, prio) => Fork(s, pid, time, prio)
    case ExitOp(pid) => Exit(s, pid)
    case WaitOp(pid) => Wait(s, pid)
    case SleepOp(pid, chan) => Sleep(s, pid, chan)
    case WakeupOp(chan) => (s.(ps := Woken(s.ps, chan)), 0)
    case KillOp(pid) => Kill(s, pid)
  }

  predicate Full(ps: seq<Proc>) {
    forall i :: 0 <= i < |ps| ==> ps[i].state != UNUSED
  }

  /** Exit does not follow a null parent: line 167 has no test. */
  predicate Defined(s: State, op: Op) {
    op.ExitOp? ==>
      var e := FindPid(s.ps, op.pid);
      e < |s.ps| && e != s.init ==> s.ps[e].parent >= 0
  }

  /** pid 0 finds an unused slot, unless there is none; the call does not put it to sleep. */
  predicate Harmless(s: State, op: Op) {
    (op.SleepOp? || op.WaitOp?) && op.pid == 0 && !Full(s.ps) ==>
      var w := FindPid(s.ps, 0);
      op.WaitOp? && (FindZombie(s.ps, w) < |s.ps| || !HasKids(s.ps, w) || (w < |s.ps| && s.ps[w].killed))
  }

  /** A Fork that made a process, and a Wait that reaped one. */
  predicate Forks(op: Op, r: int) {
    op.ForkOp? && r > 0
  }

  predicate Reaps(op: Op, r: int) {
    op.WaitOp? && r > 0
  }

  /** A new process gets a pid no process has; nothing else is made or lost. */
  lemma ForkKeeps(s: State, pid: int, time: int, prio: int)
    requires Valid(s)
    ensures var (t, r) := Fork(s, pid, time, prio);
            && Valid(t) && t.init == s.init && t.ps[t.init] == s.ps[s.init]
            && (r > 0 <==> (pid in Pids(s.ps) || pid == 0) && !Full(s.ps))
            && (if r > 0 then r == s.next && t.next == r + 1 && r !in Pids(s.ps) && Pids(t.ps) == Pids(s.ps) + {r}
                else t == s && r == -1)
  {
    var f, k := FindPid(s.ps, pid), FindUnused(s.ps);
    if k < |s.ps| { assert SlotOk(s.ps[k], s.next); }
    if f < |s.ps| && k < |s.ps| {
      PidsUpdate(s.ps, k, Child(s.ps[f], f, s.next, time, prio, s.ps[k]));
    }
  }

  lemma ExitSlot(s: State, pid: int, i: nat)
    requires Valid(s) && pid != 0 && i < NPROC
    ensures var q := Exit(s, pid).0.ps[i];
            && q.pid == s.ps[i].pid && SlotOk(q, s.next) && (i != s.init && q.parent == -1 ==> q.state == UNUSED)
            && (i == s.init ==> q.state != UNUSED && q.state != ZOMBIE && q.parent == -1)
  {
    assert SlotOk(s.ps[i], s.next);
    hide PidsDistinct, SlotOk;
    var e := FindPid(s.ps, pid);
    if e < NPROC && e != s.init { SlotOkKept(s, pid, e, i); }
  }

  lemma SlotOkKept(s: State, pid: int, e: nat, i: nat)
    requires Valid(s) && i < NPROC && e < NPROC && s.ps[e].pid == pid && pid != 0
    ensures SlotOk(Abandoned(Woken(s.ps, ParentPid(s.ps, e)), e, s.init)[i], s.next)
    ensures SlotOk(Abandoned(Woken(s.ps, ParentPid(s.ps, e)), e, s.init)[e].(state := ZOMBIE), s.next)
  {
    assert SlotOk(s.ps[i], s.next) && SlotOk(s.ps[e], s.next);
    hide Valid, ParentPid;
  }

  lemma ExitValid(s: State, pid: int)
    requires Valid(s) && pid != 0
    ensures var (t, r) := Exit(s, pid);
            Valid(t) && t.init == s.init && t.next == s.next && SamePids(s.ps, t.ps)
  {
    forall i | 0 <= i < NPROC
      ensures var q := Exit(s, pid).0.ps[i];
              && q.pid == s.ps[i].pid && SlotOk(q, s.next) && (i != s.init && q.parent == -1 ==> q.state == UNUSED)
              && (i == s.init ==> q.state != UNUSED && q.state != ZOMBIE && q.parent == -1)
    {
      ExitSlot(s, pid, i);
    }
    SamePidsKept(s.ps, Exit(s, pid).0.ps);
    hide PidsDistinct, SlotOk, Abandoned, Woken, ParentPid;
  }

  /** Slot i is the process with this pid, or its parent is. */
  predicate Leaves(ps: seq<Proc>, pid: int, i: nat)
    requires i < |ps|
  {
    ps[i].pid == pid || (0 <= ps[i].parent < |ps| && ps[ps[i].parent].pid == pid)
  }

  /** Exit turns the process and its children into zombies, never the first process; all stay
      in the table. */
  lemma ExitKeeps(s: State, pid: int)
    requires Valid(s) && Defined(s, ExitOp(pid))
    ensures var (t, r) := Exit(s, pid);
            && Valid(t) && t.init == s.init && t.next == s.next && t.ps[t.init].pid == s.ps[s.init].pid
            && Pids(t.ps) == Pids(s.ps)
            && (r == 0 <==> pid in Pids(s.ps) && pid != s.ps[s.init].pid)
            && (r == 0 ==> forall i :: 0 <= i < NPROC ==>
                  (t.ps[i].state == ZOMBIE <==> s.ps[i].state == ZOMBIE || Leaves(s.ps, pid, i)))
  {
    var (t, r) := Exit(s, pid);
    NotExited(s, pid);
    if pid == 0 { return; }
    ExitValid(s, pid);
    SamePidsKept(s.ps, t.ps);
    var e := FindPid(s.ps, pid);
    if e < |s.ps| { assert pid in Pids(s.ps); }
    if r == 0 {
      forall i | 0 <= i < NPROC
        ensures t.ps[i].state == ZOMBIE <==> s.ps[i].state == ZOMBIE || Leaves(s.ps, pid, i)
      {
        ExitZombie(s, pid, i);
      }
    }
  }

  /** An unused slot has no parent, so Exit never ends one. */
  lemma NotExited(s: State, pid: int)
    requires Valid(s) && Defined(s, ExitOp(pid))
    ensures pid == 0 ==> Full(s.ps) && FindPid(s.ps, pid) == |s.ps|
  {
    var e := FindPid(s.ps, pid);
    if e < |s.ps| { assert SlotOk(s.ps[e], s.next); }
    assert e == |s.ps| && pid == 0 ==> forall i :: 0 <= i < NPROC ==> SlotOk(s.ps[i], s.next);
  }

  lemma ExitZombie(s: State, pid: int, i: nat)
    requires Valid(s) && pid != 0 && i < NPROC && Exit(s, pid).1 == 0
    ensures Exit(s, pid).0.ps[i].state == ZOMBIE <==> s.ps[i].state == ZOMBIE || Leaves(s.ps, pid, i)
  {
    var e := FindPid(s.ps, pid);
    OnlySlot(s, e, i);
    if 0 <= s.ps[i].parent < NPROC { OnlySlot(s, e, s.ps[i].parent); }
    hide Valid;
  }

  lemma OnlySlot(s: State, e: nat, i: nat)
    requires Valid(s) && e < NPROC && i < NPROC && s.ps[e].pid > 0
    ensures s.ps[i].pid == s.ps[e].pid <==> i == e
  {
  }

  /** An unused slot put to sleep is neither used nor unused. */
  lemma SleepOnPidZero(s: State, chan: int)
    requires Valid(s)
    ensures Valid(Sleep(s, 0, chan).0) <==> Full(s.ps)
    ensures Full(s.ps) ==> Sleep(s, 0, chan).0 == s
  {
    var k := FindPid(s.ps, 0);
    if k < NPROC { assert SlotOk(s.ps[k], s.next) && !SlotOk(Sleep(s, 0, chan).0.ps[k], s.next); }
    assert k == NPROC ==> forall i :: 0 <= i < NPROC ==> SlotOk(s.ps[i], s.next);
  }

  /** Wait on pid 0 acts for the first unused slot. */
  lemma WaitOnPidZero(s: State)
    requires Valid(s)
    ensures var (t, r) := Wait(s, 0);
            && (Valid(t) <==> Harmless(s, WaitOp(0)))
            && (Valid(t) ==>
                  && t.init == s.init && t.next == s.next && t.ps[t.init].pid == s.ps[s.init].pid
                  && (if r > 0 then r in Pids(s.ps) && r != s.ps[s.init].pid && Pids(t.ps) == Pids(s.ps) - {r}
                      else t == s))
  {
    var w := FindPid(s.ps, 0);
    NoUnused(s);
    if w < |s.ps| {
      var z := FindZombie(s.ps, w);
      if z < |s.ps| {
        ReapKeeps(s, w, z);
      } else {
        SleepOnPidZero(s, 0);
      }
    }
  }

  lemma NoUnused(s: State)
    requires Valid(s)
    ensures FindPid(s.ps, 0) == |s.ps| <==> Full(s.ps)
  {
    var k := FindPid(s.ps, 0);
    if k < NPROC { assert SlotOk(s.ps[k], s.next); }
    assert k == NPROC ==> forall i :: 0 <= i < NPROC ==> SlotOk(s.ps[i], s.next);
  }

  /** Wait reaps one zombie child, or nobody; the reaped pid leaves the table. */
  lemma WaitKeeps(s: State, pid: int)
    requires Valid(s) && pid != 0
    ensures var (t, r) := Wait(s, pid);
            && Valid(t) && t.init == s.init && t.next == s.next && t.ps[t.init].pid == s.ps[s.init].pid
            && (if r > 0 then r in Pids(s.ps) && r != s.ps[s.init].pid && Pids(t.ps) == Pids(s.ps) - {r}
                else Pids(t.ps) == Pids(s.ps))
            && (r == -1 ==> t == s)
            && (r > 0 <==> exists w, z ::
                  && 0 <= w < NPROC && 0 <= z < NPROC && s.ps[w].pid == pid
                  && s.ps[z].parent == w && s.ps[z].state == ZOMBIE)
  {
    hide Pids;
    var (t, r) := Wait(s, pid);
    var w := FindPid(s.ps, pid);
    if w < |s.ps| {
      assert forall i :: 0 <= i < NPROC && s.ps[i].pid == pid ==> i == w;
      var z := FindZombie(s.ps, w);
      if z < |s.ps| {
        ReapKeeps(s, w, z);
      } else {
        SamePidsKept(s.ps, t.ps);
      }
    }
  }

  lemma ReapKeeps(s: State, w: nat, z: nat)
    requires Valid(s) && z < NPROC && s.ps[z].parent == w && s.ps[z].state == ZOMBIE
    ensures var t, r := s.(ps := s.ps[z := Reaped(s.ps[z])]), s.ps[z].pid;
            && Valid(t) && t.ps[t.init].pid == s.ps[s.init].pid
            && r > 0 && r in Pids(s.ps) && r != s.ps[s.init].pid && Pids(t.ps) == Pids(s.ps) - {r}
  {
    assert SlotOk(s.ps[z], s.next);
    PidsUpdate(s.ps, z, Reaped(s.ps[z]));
  }

  lemma QuietKeeps(s: State, op: Op)
    requires Valid(s) && (op.WakeupOp? || op.KillOp? || (op.SleepOp? && op.pid != 0))
    ensures var (t, _) := Step(s, op);
            && Valid(t) && t.init == s.init && t.next == s.next && t.ps[t.init].pid == s.ps[s.init].pid
            && Pids(t.ps) == Pids(s.ps)
  {
    hide Pids, PidsDistinct;
    SamePidsKept(s.ps, Step(s, op).0.ps);
  }

  /** What one call does to the processes of the table; the table stays valid exactly if the call
      does not put an unused slot to sleep. */
  lemma StepKeeps(s: State, op: Op)
    requires Valid(s) && Defined(s, op)
    ensures var (t, r) := Step(s, op);
            && (Valid(t) <==> Harmless(s, op))
            && (Harmless(s, op) ==>
                  && t.init == s.init && t.ps[t.init].pid == s.ps[s.init].pid
                  && t.next == s.next + (if Forks(op, r) then 1 else 0)
                  && (Forks(op, r) ==> r == s.next && r !in Pids(s.ps) && Pids(t.ps) == Pids(s.ps) + {r})
                  && (Reaps(op, r) ==> r in Pids(s.ps) && r != s.ps[s.init].pid && Pids(t.ps) == Pids(s.ps) - {r})
                  && (!Forks(op, r) && !Reaps(op, r) ==> Pids(t.ps) == Pids(s.ps)))
  {
    hide Valid, Pids, Fork, Exit, Wait, Sleep, Kill, Woken, Full;
    match op
    case ForkOp(pid, time, prio) => ForkKeeps(s, pid, time, prio);
    case ExitOp(pid) => ExitKeeps(s, pid);
    case WaitOp(pid) => if pid == 0 { WaitOnPidZero(s); } else { WaitKeeps(s, pid); }
    case SleepOp(pid, chan) => if pid == 0 { SleepOnPidZero(s, chan); } else { QuietKeeps(s, op); }
    case _ => QuietKeeps(s, op);
  }

  // ---------- runs ----------

  function Run(s: State, ops: seq<Op>): (r: (State, seq<int>))
    ensures |r.1| == |ops|
    decreases |ops|
  {
    if ops == [] then (s, [])
    else
      var (t, r) := Step(s, ops[0]);
      var (u, rs) := Run(t, ops[1..]);
      (u, [r] + rs)
  }

  function Count(f: (Op, int) -> bool, ops: seq<Op>, rs: seq<int>): nat
    requires |ops| == |rs|
    decreases |ops|
  {
    if ops == [] then 0 else (if f(ops[0], rs[0]) then 1 else 0) + Count(f, ops[1..], rs[1..])
  }

  /** Every call of the run is defined, and puts no unused slot to sleep. */
  predicate Behaves(s: State, ops: seq<Op>)
    decreases |ops|
  {
    ops == [] || (Defined(s, ops[0]) && Harmless(s, ops[0]) && Behaves(Step(s, ops[0]).0, ops[1..]))
  }

  /** Any run of calls on pids other than 0 does. */
  lemma {:induction false} OtherPidsBehave(s: State, ops: seq<Op>)
    requires Valid(s) && forall i :: 0 <= i < |ops| ==> ops[i].WakeupOp? || ops[i].pid != 0
    ensures Behaves(s, ops)
    decreases |ops|
  {
    hide Valid, Step;
    if ops != [] {
      OtherPidDefined(s, ops[0]);
      StepKeeps(s, ops[0]);
      OtherPidsBehave(Step(s, ops[0]).0, ops[1..]);
    }
  }

  lemma OtherPidDefined(s: State, op: Op)
    requires Valid(s) && (op.WakeupOp? || op.pid != 0)
    ensures Defined(s, op) && Harmless(s, op)
  {
    if op.ExitOp? {
      var e := FindPid(s.ps, op.pid);
      if e < |s.ps| { assert SlotOk(s.ps[e], s.next); }
    }
  }

  /** Over any run: the table stays valid, and the slots in use grow by the Forks and shrink by
      the Waits that succeeded. */
  lemma {:induction false} RunKeeps(s: State, ops: seq<Op>)
    requires Valid(s) && Behaves(s, ops)
    ensures var (t, rs) := Run(s, ops);
            && Valid(t) && t.init == s.init && t.ps[t.init].pid == s.ps[s.init].pid
            && |Pids(t.ps)| == |Pids(s.ps)| + Count(Forks, ops, rs) - Count(Reaps, ops, rs)
    decreases |ops|
  {
    hide Pids, Step;
    if ops != [] {
      StepKeeps(s, ops[0]);
      var (t, r) := Step(s, ops[0]);
      var (_, rs) := Run(t, ops[1..]);
      RunKeeps(t, ops[1..]);
      assert ([r] + rs)[1..] == rs;
    }
  }

  /** A pid that was given out and is not in the table is never reaped. */
  lemma {:induction false} GoneStaysGone(s: State, ops: seq<Op>, pid: int, j: nat)
    requires Valid(s) && Behaves(s, ops) && pid < s.next && pid !in Pids(s.ps)
    requires j < |ops| && Reaps(ops[j], Run(s, ops).1[j])
    ensures Run(s, ops).1[j] != pid
    decreases |ops|
  {
    hide Pids, Step, Valid;
    StepKeeps(s, ops[0]);
    if j > 0 {
      var (t, _) := Step(s, ops[0]);
      GoneStaysGone(t, ops[1..], pid, j - 1);
    }
  }

  /** No pid is returned by Wait twice, and the first process never is. */
  lemma {:induction false} ReapedOnce(s: State, ops: seq<Op>, i: nat, j: nat)
    requires Valid(s) && Behaves(s, ops) && i < j < |ops|
    requires var rs := Run(s, ops).1; Reaps(ops[i], rs[i]) && Reaps(ops[j], rs[j])
    ensures var rs := Run(s, ops).1; rs[i] != rs[j] && rs[i] != s.ps[s.init].pid
    decreases |ops|
  {
    hide Pids, Step;
    StepKeeps(s, ops[0]);
    var (t, r) := Step(s, ops[0]);
    if i == 0 {
      assert SlotOk(s.ps[s.init], s.next);
      PidGivenOut(s, r);
      GoneStaysGone(t, ops[1..], r, j - 1);
    } else {
      ReapedOnce(t, ops[1..], i - 1, j - 1);
    }
  }

  lemma PidGivenOut(s: State, pid: int)
    requires Valid(s) && pid in Pids(s.ps)
    ensures 0 < pid < s.next
  {
    var i :| 0 <= i < |s.ps| && s.ps[i].pid != 0 && s.ps[i].pid == pid;
    assert SlotOk(s.ps[i], s.next);
  }

  /** After userinit: one process, with pid 1. */
  function Booted(): State {
    var first := EMPTY.(state := RUNNING, pid := 1, sz := PGSIZE, cwd := "/", name := "userinit",
                        prio := 1024, timeToC := 100);
    State(seq(NPROC, i => if i == 0 then first else EMPTY), 0, 2)
  }

  lemma BootedValid()
    ensures Valid(Booted()) && Pids(Booted().ps) == {1}
  {
    assert Booted().ps[0].pid == 1;
  }

  /** From userinit on, the slots in use number 1 + successful Forks - successful Waits. */
  lemma RunFromBoot(ops: seq<Op>)
    requires Behaves(Booted(), ops)
    ensures var (t, rs) := Run(Booted(), ops);
            Valid(t) && Used(t.ps) == 1 + Count(Forks, ops, rs) - Count(Reaps, ops, rs)
  {
    hide Step, Run;
    BootedValid();
    RunKeeps(Booted(), ops);
    UsedIsPids(Run(Booted(), ops).0.ps);
  }

  // ---------- the tree of parents ----------

  /** Slot i is in use, and n parent steps through slots in use lead to the first process. */
  predicate Rooted(ps: seq<Proc>, init: nat, i: int, n: nat)
    decreases n
  {
    && 0 <= i < |ps| && ps[i].pid != 0
    && (i == init || (n > 0 && Rooted(ps, init, ps[i].parent, n - 1)))
  }

  ghost predicate HasRoot(ps: seq<Proc>, init: nat, i: int) {
    exists n: nat :: Rooted(ps, init, i, n)
  }

  /** The processes form a tree with the first one at its root. */
  ghost predicate Tree(s: State) {
    forall i :: 0 <= i < |s.ps| && s.ps[i].pid != 0 ==> HasRoot(s.ps, s.init, i)
  }

  predicate IsParent(ps: seq<Proc>, z: nat) {
    exists i :: 0 <= i < |ps| && ps[i].pid != 0 && ps[i].parent == z
  }

  /** The call reaps no slot that a process has for its parent, and forks no unused slot. */
  predicate Orderly(s: State, op: Op) {
    match op
    case ForkOp(pid, _, _) => pid != 0 || Full(s.ps)
    case WaitOp(pid) =>
      var w := FindPid(s.ps, pid);
      w < |s.ps| ==>
        var z := FindZombie(s.ps, w);
        z < |s.ps| ==> !IsParent(s.ps, z)
    case _ => true
  }

  /** Parents stay, or are replaced by the first process; only slot z may go, and it is no parent. */
  lemma {:induction false} RootedKept(ps: seq<Proc>, qs: seq<Proc>, init: nat, z: int, i: int, n: nat)
    requires Rooted(ps, init, i, n) && |qs| == |ps| && i != z
    requires init < |ps| && qs[init].pid != 0
    requires forall j :: 0 <= j < |ps| && ps[j].pid != 0 && j != z ==>
                && qs[j].pid != 0 && ps[j].parent != z
                && (qs[j].parent == ps[j].parent || qs[j].parent == init)
    ensures Rooted(qs, init, i, n)
    decreases n
  {
    if i != init {
      RootedKept(ps, qs, init, z, ps[i].parent, n - 1);
      if qs[i].parent == init { assert Rooted(qs, init, init, n - 1); }
    }
  }

  /** The changes after which all but slot z are still rooted. */
  ghost predicate Reparented(s: State, t: State, z: int) {
    && |t.ps| == |s.ps| && t.init == s.init < |s.ps| && t.ps[s.init].pid != 0 && z != s.init
    && forall j :: 0 <= j < |s.ps| && s.ps[j].pid != 0 && j != z ==>
         && t.ps[j].pid != 0 && s.ps[j].parent != z
         && (t.ps[j].parent == s.ps[j].parent || t.ps[j].parent == s.init)
  }

  lemma StillRooted(s: State, t: State, z: int)
    requires Tree(s) && Reparented(s, t, z)
    ensures forall i :: 0 <= i < |s.ps| && s.ps[i].pid != 0 && i != z ==> HasRoot(t.ps, t.init, i)
  {
    forall i | 0 <= i < |s.ps| && s.ps[i].pid != 0 && i != z
      ensures HasRoot(t.ps, t.init, i)
    {
      assert HasRoot(s.ps, s.init, i);
      var n: nat :| Rooted(s.ps, s.init, i, n);
      RootedKept(s.ps, t.ps, s.init, z, i, n);
      assert Rooted(t.ps, t.init, i, n);
    }
  }

  lemma ForkTree(s: State, pid: int, time: int, prio: int)
    requires Valid(s) && Tree(s)
    ensures Tree(Fork(s, pid, time, prio).0) <==> Orderly(s, ForkOp(pid, time, prio))
  {
    var f, k, t := FindPid(s.ps, pid), FindUnused(s.ps), Fork(s, pid, time, prio).0;
    NoUnused(s);
    if f < |s.ps| && k < |s.ps| {
      assert SlotOk(s.ps[f], s.next) && SlotOk(s.ps[k], s.next);
      UsedSlots(s);
      if pid == 0 {
        SameFirst(s, f, k);
        OwnParent(t.ps, t.init, k);
      } else {
        StillRooted(s, t, -2);
        assert HasRoot(t.ps, t.init, f);
        var n: nat :| Rooted(t.ps, t.init, f, n);
        assert Rooted(t.ps, t.init, k, n + 1);
      }
    }
  }

  lemma UsedSlots(s: State)
    requires Valid(s)
    ensures forall i :: 0 <= i < |s.ps| ==> (s.ps[i].state == UNUSED <==> s.ps[i].pid == 0) && -1 <= s.ps[i].parent
    ensures s.ps[s.init].pid != 0
  {
    assert forall i :: 0 <= i < NPROC ==> SlotOk(s.ps[i], s.next);
  }

  lemma SameFirst(s: State, f: nat, k: nat)
    requires Valid(s) && f == FindPid(s.ps, 0) < |s.ps| && k == FindUnused(s.ps) < |s.ps|
    ensures f == k
  {
    UsedSlots(s);
  }

  /** A process that is its own parent is not rooted. */
  lemma {:induction false} OwnParentAt(ps: seq<Proc>, init: nat, k: nat, n: nat)
    requires k < |ps| && k != init && ps[k].parent == k
    ensures !Rooted(ps, init, k, n)
    decreases n
  {
    if n > 0 { OwnParentAt(ps, init, k, n - 1); }
  }

  lemma OwnParent(ps: seq<Proc>, init: nat, k: nat)
    requires k < |ps| && k != init && ps[k].parent == k
    ensures forall n: nat :: !Rooted(ps, init, k, n)
  {
    forall n: nat ensures !Rooted(ps, init, k, n) { OwnParentAt(ps, init, k, n); }
  }

  lemma WaitTree(s: State, pid: int)
    requires Valid(s) && Tree(s)
    ensures Tree(Wait(s, pid).0) <==> Orderly(s, WaitOp(pid))
  {
    var w, t := FindPid(s.ps, pid), Wait(s, pid).0;
    UsedSlots(s);
    if w < |s.ps| {
      var z := FindZombie(s.ps, w);
      if z == |s.ps| {
        StillRooted(s, t, -2);
      } else if IsParent(s.ps, z) {
        var i :| 0 <= i < |s.ps| && s.ps[i].pid != 0 && s.ps[i].parent == z;
        LostParent(s, t, z, i);
      } else {
        StillRooted(s, t, z);
      }
    }
  }

  lemma LostParent(s: State, t: State, z: nat, i: nat)
    requires Valid(s) && Tree(s) && z < |s.ps| && i < |s.ps| && s.ps[i].pid != 0 && s.ps[i].parent == z
    requires t == s.(ps := s.ps[z := Reaped(s.ps[z])])
    ensures !Tree(t)
  {
    assert HasRoot(s.ps, s.init, i);
    var n: nat :| Rooted(s.ps, s.init, i, n);
    if i == z { OwnParentAt(s.ps, s.init, i, n); }
    assert t.ps[z].pid == 0 && t.ps[i].pid != 0 && i != t.init;
    forall m: nat ensures !Rooted(t.ps, t.init, i, m) {
      assert m > 0 ==> !Rooted(t.ps, t.init, z, m - 1);
    }
    assert !HasRoot(t.ps, t.init, i);
  }

  lemma ExitTree(s: State, pid: int)
    requires Valid(s) && Tree(s) && Defined(s, ExitOp(pid))
    ensures Tree(Exit(s, pid).0)
  {
    hide Tree, Rooted, PidsDistinct;
    UsedSlots(s);
    var t := Exit(s, pid).0;
    ExitReparents(s, pid);
    StillRooted(s, t, -2);
    SameTree(s, t);
  }

  lemma ExitReparents(s: State, pid: int)
    requires Valid(s) && Defined(s, ExitOp(pid))
    ensures Reparented(s, Exit(s, pid).0, -2) && SamePids(s.ps, Exit(s, pid).0.ps)
  {
    hide PidsDistinct;
    UsedSlots(s);
  }

  lemma QuietTree(s: State, op: Op)
    requires Valid(s) && Tree(s) && (op.SleepOp? || op.WakeupOp? || op.KillOp?)
    ensures Tree(Step(s, op).0)
  {
    hide Tree, Rooted, PidsDistinct;
    UsedSlots(s);
    var t := Step(s, op).0;
    assert SamePids(s.ps, t.ps);
    StillRooted(s, t, -2);
    SameTree(s, t);
  }

  lemma SameTree(s: State, t: State)
    requires SamePids(s.ps, t.ps)
    requires forall i :: 0 <= i < |s.ps| && s.ps[i].pid != 0 && i != -2 ==> HasRoot(t.ps, t.init, i)
    ensures Tree(t)
  {
  }

  /** One call keeps the tree exactly if it is orderly. */
  lemma StepTree(s: State, op: Op)
    requires Valid(s) && Tree(s) && Defined(s, op)
    ensures Tree(Step(s, op).0) <==> Orderly(s, op)
  {
    hide Valid, Tree, Fork, Exit, Wait, Sleep, Kill, Woken, Full, IsParent;
    match op
    case ForkOp(pid, time, prio) => ForkTree(s, pid, time, prio);
    case WaitOp(pid) => WaitTree(s, pid);
    case ExitOp(pid) => ExitTree(s, pid);
    case _ => QuietTree(s, op);
  }

  predicate OrderlyRun(s: State, ops: seq<Op>)
    decreases |ops|
  {
    ops == [] || (Orderly(s, ops[0]) && OrderlyRun(Step(s, ops[0]).0, ops[1..]))
  }

  /** From userinit on the processes are a tree as long as every call is orderly. */
  lemma TreeFromBoot(ops: seq<Op>)
    requires Behaves(Booted(), ops) && OrderlyRun(Booted(), ops)
    ensures Tree(Run(Booted(), ops).0)
  {
    BootedValid();
    assert Rooted(Booted().ps, 0, 0, 0);
    RunTree(Booted(), ops);
  }

  lemma {:induction false} RunTree(s: State, ops: seq<Op>)
    requires Valid(s) && Tree(s) && Behaves(s, ops) && OrderlyRun(s, ops)
    ensures Tree(Run(s, ops).0)
    decreases |ops|
  {
    hide Valid, Tree, Step;
    if ops != [] {
      StepKeeps(s, ops[0]);
      StepTree(s, ops[0]);
      RunTree(Step(s, ops[0]).0, ops[1..]);
    }
  }

  /** A run after which two processes are each other's parents: slot 3 keeps slot 2 for its parent
      while that is reaped, and then forks into it. */
  function CycleRun(): seq<Op> {
    [ForkOp(1, 0, 0), ForkOp(2, 0, 0), ForkOp(3, 0, 0), ExitOp(2)] +
    [WaitOp(1), WaitOp(1), ForkOp(4, 0, 0), ForkOp(4, 0, 0)]
  }

  /** State, pid and parent of the first slots; all others are unused. */
  datatype Slot = Slot(state: Procstate, pid: int, parent: int)

  predicate Looks(s: State, slots: seq<Slot>, next: int) {
    && |s.ps| == NPROC && |slots| <= NPROC && s.init == 0 && s.next == next
    && forall i :: 0 <= i < NPROC ==>
         Slot(s.ps[i].state, s.ps[i].pid, s.ps[i].parent) == if i < |slots| then slots[i] else Slot(UNUSED, 0, -1)
  }

  lemma ForkLooks(s: State, slots: seq<Slot>, next: int, f: nat, k: nat)
    requires Looks(s, slots, next) && f < |slots| && k < NPROC && k <= |slots| && next > 0
    requires slots[f].pid != 0 && forall i :: 0 <= i < f ==> slots[i].pid != slots[f].pid
    requires k < |slots| ==> slots[k].state == UNUSED
    requires forall i :: 0 <= i < k ==> slots[i].state != UNUSED
    ensures var child := Slot(RUNNABLE, next, f);
            var after := if k < |slots| then slots[k := child] else slots + [child];
            Looks(Step(s, ForkOp(slots[f].pid, 0, 0)).0, after, next + 1)
  {
    assert Slot(s.ps[f].state, s.ps[f].pid, s.ps[f].parent) == slots[f];
    assert forall i :: 0 <= i < f ==> Slot(s.ps[i].state, s.ps[i].pid, s.ps[i].parent) == slots[i];
    FindPidIs(s.ps, slots[f].pid, f);
    FindUnusedIs(s.ps, k);
  }

  lemma WaitLooks(s: State, slots: seq<Slot>, next: int, z: nat)
    requires Looks(s, slots, next) && z < |slots| && slots[0] == Slot(RUNNING, 1, -1)
    requires slots[z].state == ZOMBIE && slots[z].parent == 0
    requires forall i :: 0 <= i < z ==> slots[i].state != ZOMBIE || slots[i].parent != 0
    ensures Looks(Step(s, WaitOp(1)).0, slots[z := Slot(UNUSED, 0, -1)], next)
  {
    assert Slot(s.ps[0].state, s.ps[0].pid, s.ps[0].parent) == slots[0];
    assert forall i :: 0 <= i <= z ==> Slot(s.ps[i].state, s.ps[i].pid, s.ps[i].parent) == slots[i];
    FindPidIs(s.ps, 1, 0);
    FindZombieIs(s.ps, 0, z);
  }

  lemma ExitLooks(s: State)
    requires Looks(s, [Slot(RUNNING, 1, -1), Slot(RUNNABLE, 2, 0), Slot(RUNNABLE, 3, 1), Slot(RUNNABLE, 4, 2)], 5)
    ensures Looks(Step(s, ExitOp(2)).0,
                  [Slot(RUNNING, 1, -1), Slot(ZOMBIE, 2, 0), Slot(ZOMBIE, 3, 0), Slot(RUNNABLE, 4, 2)], 5)
  {
    FindPidIs(s.ps, 2, 1);
    assert forall i :: 0 <= i < NPROC ==> s.ps[i].state != SLEEPING;
  }

  lemma RunFirst(s: State, op: Op, ops: seq<Op>)
    ensures Run(s, [op] + ops).0 == Run(Step(s, op).0, ops).0
  {
    assert ([op] + ops)[1..] == ops;
  }

  lemma ParentsCanCycle()
    ensures Behaves(Booted(), CycleRun())
    ensures Looks(Run(Booted(), CycleRun()).0,
                  [Slot(RUNNING, 1, -1), Slot(RUNNABLE, 5, 3), Slot(RUNNABLE, 6, 3), Slot(RUNNABLE, 4, 2)], 7)
    ensures !Tree(Run(Booted(), CycleRun()).0)
  {
    hide Step, Run, Looks;
    BootedValid();
    OtherPidsBehave(Booted(), CycleRun());
    CycleLooks();
    CycleNotRooted(Run(Booted(), CycleRun()).0);
  }

  lemma CycleLooks()
    ensures Looks(Run(Booted(), CycleRun()).0,
                  [Slot(RUNNING, 1, -1), Slot(RUNNABLE, 5, 3), Slot(RUNNABLE, 6, 3), Slot(RUNNABLE, 4, 2)], 7)
  {
    assert Looks(Booted(), [Slot(RUNNING, 1, -1)], 2);
    CycleStarts(Booted(), CycleRun());
  }

  lemma CycleStarts(s0: State, ops: seq<Op>)
    requires Looks(s0, [Slot(RUNNING, 1, -1)], 2) && ops == CycleRun()
    ensures Looks(Run(s0, ops).0,
                  [Slot(RUNNING, 1, -1), Slot(RUNNABLE, 5, 3), Slot(RUNNABLE, 6, 3), Slot(RUNNABLE, 4, 2)], 7)
  {
    hide Step, Run, Looks, Booted;
    var slots := [Slot(RUNNING, 1, -1)];
    ForkLooks(s0, slots, 2, 0, 1);
    RunFirst(s0, ops[0], ops[1..]);
    var s := Step(s0, ops[0]).0;
    assert slots + [Slot(RUNNABLE, 2, 0)] == [Slot(RUNNING, 1, -1), Slot(RUNNABLE, 2, 0)];
    slots := [Slot(RUNNING, 1, -1), Slot(RUNNABLE, 2, 0)];
    ForkLooks(s, slots, 3, 1, 2);
    RunFirst(s, ops[1], ops[2..]);
    s := Step(s, ops[1]).0;
    assert slots + [Slot(RUNNABLE, 3, 1)] == [Slot(RUNNING, 1, -1), Slot(RUNNABLE, 2, 0), Slot(RUNNABLE, 3, 1)];
    slots := [Slot(RUNNING, 1, -1), Slot(RUNNABLE, 2, 0), Slot(RUNNABLE, 3, 1)];
    ForkLooks(s, slots, 4, 2, 3);
    RunFirst(s, ops[2], ops[3..]);
    s := Step(s, ops[2]).0;
    assert slots + [Slot(RUNNABLE, 4, 2)] ==
           [Slot(RUNNING, 1, -1), Slot(RUNNABLE, 2, 0), Slot(RUNNABLE, 3, 1), Slot(RUNNABLE, 4, 2)];
    assert ops == [ops[0]] + ops[1..] && ops[1..] == [ops[1]] + ops[2..] && ops[2..] == [ops[2]] + ops[3..];
    assert ops[3..] == [ExitOp(2), WaitOp(1), WaitOp(1), ForkOp(4, 0, 0), ForkOp(4, 0, 0)];
    CycleEnds(s, ops[3..]);
  }

  lemma CycleEnds(s0: State, ops: seq<Op>)
    requires Looks(s0, [Slot(RUNNING, 1, -1), Slot(RUNNABLE, 2, 0), Slot(RUNNABLE, 3, 1), Slot(RUNNABLE, 4, 2)], 5)
    requires ops == [ExitOp(2), WaitOp(1), WaitOp(1), ForkOp(4, 0, 0), ForkOp(4, 0, 0)]
    ensures Looks(Run(s0, ops).0,
                  [Slot(RUNNING, 1, -1), Slot(RUNNABLE, 5, 3), Slot(RUNNABLE, 6, 3), Slot(RUNNABLE, 4, 2)], 7)
  {
    hide Step, Looks;
    assert Run(s0, []).0 == s0;
    assert forall s: State :: Run(s, []).0 == s;
    hide Run;
    var unused := Slot(UNUSED, 0, -1);
    ExitLooks(s0);
    RunFirst(s0, ops[0], ops[1..]);
    var s := Step(s0, ops[0]).0;
    var slots := [Slot(RUNNING, 1, -1), Slot(ZOMBIE, 2, 0), Slot(ZOMBIE, 3, 0), Slot(RUNNABLE, 4, 2)];
    WaitLooks(s, slots, 5, 1);
    RunFirst(s, ops[1], ops[2..]);
    s, slots := Step(s, ops[1]).0, slots[1 := unused];
    WaitLooks(s, slots, 5, 2);
    RunFirst(s, ops[2], ops[3..]);
    s, slots := Step(s, ops[2]).0, slots[2 := unused];
    ForkLooks(s, slots, 5, 3, 1);
    RunFirst(s, ops[3], ops[4..]);
    s, slots := Step(s, ops[3]).0, slots[1 := Slot(RUNNABLE, 5, 3)];
    ForkLooks(s, slots, 6, 3, 2);
    RunFirst(s, ops[4], []);
    assert ops == [ops[0]] + ops[1..] && ops[1..] == [ops[1]] + ops[2..] && ops[2..] == [ops[2]] + ops[3..];
    assert ops[3..] == [ops[3]] + ops[4..] && ops[4..] == [ops[4]] + [];
    assert slots[2 := Slot(RUNNABLE, 6, 3)] ==
           [Slot(RUNNING, 1, -1), Slot(RUNNABLE, 5, 3), Slot(RUNNABLE, 6, 3), Slot(RUNNABLE, 4, 2)];
  }

  lemma CycleNotRooted(s: State)
    requires Looks(s, [Slot(RUNNING, 1, -1), Slot(RUNNABLE, 5, 3), Slot(RUNNABLE, 6, 3), Slot(RUNNABLE, 4, 2)], 7)
    ensures !Tree(s)
  {
    assert s.ps[2].pid != 0;
    forall n: nat ensures !Rooted(s.ps, s.init, 2, n) {
      TwoParents(s.ps, s.init, 2, 3, n);
    }
    assert !HasRoot(s.ps, s.init, 2);
  }

  lemma {:induction false} TwoParents(ps: seq<Proc>, init: nat, i: nat, j: nat, n: nat)
    requires i < |ps| && j < |ps| && i != init && j != init && ps[i].parent == j && ps[j].parent == i
    ensures !Rooted(ps, init, i, n)
    decreases n
  {
    if n > 0 { TwoParents(ps, init, j, i, n - 1); }
  }

  // ---------- the loops ----------

  lemma {:induction false} FindPidIs(ps: seq<Proc>, pid: int, k: nat)
    requires k <= |ps| && (k < |ps| ==> ps[k].pid == pid) && forall i :: 0 <= i < k ==> ps[i].pid != pid
    ensures FindPid(ps, pid) == k
    decreases k
  {
    if k > 0 { FindPidIs(ps[1..], pid, k - 1); }
  }

  lemma {:induction false} FindUnusedIs(ps: seq<Proc>, k: nat)
    requires k <= |ps| && (k < |ps| ==> ps[k].state == UNUSED) && forall i :: 0 <= i < k ==> ps[i].state != UNUSED
    ensures FindUnused(ps) == k
    decreases k
  {
    if k > 0 { FindUnusedIs(ps[1..], k - 1); }
  }

  lemma {:induction false} FindZombieIs(ps: seq<Proc>, w: nat, k: nat)
    requires k <= |ps| && (k < |ps| ==> ps[k].parent == w && ps[k].state == ZOMBIE)
    requires forall i :: 0 <= i < k ==> !(ps[i].parent == w && ps[i].state == ZOMBIE)
    ensures FindZombie(ps, w) == k
    decreases k
  {
    if k > 0 { FindZombieIs(ps[1..], w, k - 1); }
  }
}
