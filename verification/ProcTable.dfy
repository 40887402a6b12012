/** schproj/proc.c: the process table, changed in place by loops over its slots. */
module ProcTable {
  import opened M = ProcTableModel

  const INT_MAX := 0x7fff_ffff

  class Table {
    const proc: array<Proc>
    /** A slot number; -1 is null. */
    var initproc: int
    var nextpid: int

    ghost function State(): State
      requires initproc >= 0
      reads this, proc
    {
      M.State(proc[..], initproc, nextpid)
    }

    /** After userinit; parents are slots or null. */
    ghost predicate Sane()
      reads this, proc
    {
      && proc.Length == NPROC && 0 <= initproc < NPROC
      && forall i :: 0 <= i < NPROC ==> -1 <= proc[i].parent < NPROC
    }

    ghost predicate Ready()
      reads this, proc
    {
      Sane() && Valid(State())
    }

    /** pinit */
    constructor ()
      ensures fresh(proc) && proc.Length == NPROC && nextpid == 1
      ensures forall i :: 0 <= i < NPROC ==> proc[i] == EMPTY
    {
      proc := new Proc[NPROC](_ => EMPTY);
      initproc, nextpid := -1, 1;
    }

    /** The slot of a pid, or -1. */
    method FindProc(pid: int) returns (k: int)
      ensures k == if FindPid(proc[..], pid) < proc.Length then FindPid(proc[..], pid) else -1
    {
      k := 0;
      while k < proc.Length
        invariant 0 <= k <= proc.Length
        invariant forall i :: 0 <= i < k ==> proc[i].pid != pid
      {
        if proc[k].pid == pid {
          FindPidIs(proc[..], pid, k);
          return;
        }
        k := k + 1;
      }
      FindPidIs(proc[..], pid, k);
      k := -1;
    }

    /** Takes the first unused slot and the next pid; -1 when the table is full. */
    method AllocProc() returns (k: int)
      requires nextpid < INT_MAX
      modifies this`nextpid, proc
      ensures k == if FindUnused(old(proc[..])) < proc.Length then FindUnused(old(proc[..])) else -1
      ensures k == -1 ==> nextpid == old(nextpid) && proc[..] == old(proc[..])
      ensures k != -1 ==>
                && nextpid == old(nextpid) + 1
                && proc[..] == old(proc[..])[k := old(proc[k]).(state := EMBRYO, pid := old(nextpid))]
    {
      k := 0;
      while k < proc.Length
        invariant 0 <= k <= proc.Length && proc[..] == old(proc[..])
        invariant forall i :: 0 <= i < k ==> proc[i].state != UNUSED
      {
        if proc[k].state == UNUSED {
          FindUnusedIs(proc[..], k);
          proc[k] := proc[k].(state := EMBRYO, pid := nextpid);
          nextpid := nextpid + 1;
          return;
        }
        k := k + 1;
      }
      FindUnusedIs(proc[..], k);
      k := -1;
    }

    method UserInit() returns (r: int)
      requires proc.Length == NPROC && nextpid == 1 && forall i :: 0 <= i < NPROC ==> proc[i] == EMPTY
      modifies this, proc
      ensures r == 1 && initproc == 0 && nextpid == 2 && State() == Booted() && Ready()
      ensures proc[0] == Proc(4096, RUNNING, 1, -1, 0, false, "/", "userinit", 1024, 100)
      ensures forall i :: 1 <= i < NPROC ==> proc[i] == Proc(0, UNUSED, 0, -1, 0, false, "", "", 0, 0)
    {
      FindUnusedIs(proc[..], 0);
      var p := AllocProc();
      initproc := p;
      proc[p] := proc[p].(sz := PGSIZE, cwd := "/", name := "userinit");
      proc[p] := proc[p].(state := RUNNING);
      proc[p] := proc[p].(prio := 1024, timeToC := 100);
      r := proc[p].pid;
      assert proc[..] == Booted().ps;
      BootedValid();
    }

    method Fork(pid: int, time: int, prio: int) returns (r: int)
      requires Sane() && nextpid < INT_MAX
      modifies this`nextpid, proc
      ensures Sane() && (State(), r) == M.Fork(old(State()), pid, time, prio)
      ensures old(Ready()) ==> Ready()
    {
      hide Valid, FindPid, FindUnused, Pids;
      if Valid(State()) { ForkKeeps(State(), pid, time, prio); }
      var f := FindProc(pid);
      if f == -1 { return -1; }
      var np := AllocProc();
      if np == -1 { return -1; }
      r := CopyProc(f, np, time, prio);
      assert proc[..] == M.Fork(old(State()), pid, time, prio).0.ps;
    }

    /** Lines 134-142. */
    method CopyProc(f: nat, np: nat, time: int, prio: int) returns (pid: int)
      requires f < proc.Length && np < proc.Length
      modifies proc
      ensures pid == old(proc[np]).pid
      ensures proc[..] == old(proc[..])[np := Child(old(proc[f]), f, pid, time, prio, old(proc[np]))]
    {
      proc[np] := proc[np].(sz := proc[f].sz, parent := f);
      proc[np] := proc[np].(cwd := proc[f].cwd, timeToC := time, prio := prio);
      pid := proc[np].pid;
      proc[np] := proc[np].(state := RUNNABLE);
      proc[np] := proc[np].(name := proc[f].name);
    }

    method Wakeup1(chan: int)
      modifies proc
      ensures proc[..] == Woken(old(proc[..]), chan)
    {
      var i := 0;
      while i < proc.Length
        invariant 0 <= i <= proc.Length
        invariant forall j :: 0 <= j < i ==> proc[j] == Woken(old(proc[..]), chan)[j]
        invariant forall j :: i <= j < proc.Length ==> proc[j] == old(proc[..])[j]
      {
        if proc[i].state == SLEEPING && proc[i].chan == chan {
          proc[i] := proc[i].(state := RUNNABLE);
        }
        i := i + 1;
      }
    }

    method Wakeup(chan: int)
      requires Sane()
      modifies proc
      ensures Sane() && State() == Step(old(State()), WakeupOp(chan)).0
      ensures old(Ready()) ==> Ready()
    {
      hide Valid, Pids;
      if Valid(State()) { QuietKeeps(State(), WakeupOp(chan)); }
      Wakeup1(chan);
    }

    /** Exit's loop over the children. */
    method Abandon(e: int)
      requires initproc >= 0 && e >= 0
      modifies proc
      ensures proc[..] == Abandoned(old(proc[..]), e, initproc)
    {
      var i := 0;
      while i < proc.Length
        invariant 0 <= i <= proc.Length
        invariant forall j :: 0 <= j < i ==> proc[j] == Abandoned(old(proc[..]), e, initproc)[j]
        invariant forall j :: i <= j < proc.Length ==> proc[j] == old(proc[..])[j]
      {
        if proc[i].parent == e {
          proc[i] := proc[i].(parent := initproc);
          proc[i] := proc[i].(state := ZOMBIE);
        }
        i := i + 1;
      }
    }

    /** Line 167 follows the parent pointer without a test. */
    method Exit(pid: int) returns (r: int)
      requires Sane() && Defined(State(), ExitOp(pid))
      modifies proc
      ensures Sane() && (State(), r) == M.Exit(old(State()), pid)
      ensures old(Ready()) ==> Ready()
    {
      hide Valid, FindPid, Pids, Exited, Leaves;
      if Valid(State()) { ExitKeeps(State(), pid); }
      var e := FindProc(pid);
      if e == -1 { return -2; }
      if e == initproc { return -1; }
      EndProc(e);
      r := 0;
    }

    /** Lines 167-177. */
    method EndProc(e: nat)
      requires e < proc.Length && 0 <= proc[e].parent < proc.Length && initproc >= 0
      modifies proc
      ensures proc[..] == Exited(old(proc[..]), e, initproc)
    {
      Wakeup1(proc[proc[e].parent].pid);
      Abandon(e);
      proc[e] := proc[e].(state := ZOMBIE);
    }

    method Sleep(pid: int, chan: int) returns (r: int)
      requires Sane()
      modifies proc
      ensures Sane() && (State(), r) == M.Sleep(old(State()), pid, chan)
      ensures old(Ready()) ==> (Ready() <==> Harmless(old(State()), SleepOp(pid, chan)))
    {
      hide Valid, FindPid, Pids, Harmless;
      if Valid(State()) { StepKeeps(State(), SleepOp(pid, chan)); }
      var k := FindProc(pid);
      if k == -1 { return -3; }
      proc[k] := proc[k].(chan := chan);
      proc[k] := proc[k].(state := SLEEPING);
      assert proc[..] == M.Sleep(old(State()), pid, chan).0.ps;
      r := pid;
    }

    method Wait(pid: int) returns (r: int)
      requires Sane()
      modifies proc
      ensures Sane() && (State(), r) == M.Wait(old(State()), pid)
      ensures old(Ready()) ==> (Ready() <==> Harmless(old(State()), WaitOp(pid)))
    {
      hide Pids, FindPid, FindZombie, Valid, Harmless, Reaped, Forks, Reaps;
      if Valid(State()) { StepKeeps(State(), WaitOp(pid)); }
      ghost var was := State();
      var w := FindProc(pid);
      if w == -1 { return -3; }
      var havekids := false;
      var i := 0;
      while i < proc.Length
        invariant 0 <= i <= proc.Length && proc[..] == was.ps
        invariant havekids <==> exists j :: 0 <= j < i && was.ps[j].parent == w
        invariant forall j :: 0 <= j < i ==> !(was.ps[j].parent == w && was.ps[j].state == ZOMBIE)
      {
        if proc[i].parent == w {
          havekids := true;
          if proc[i].state == ZOMBIE {
            FindZombieIs(was.ps, w, i);
            r := Reap(i);
            return;
          }
        }
        i := i + 1;
      }
      FindZombieIs(was.ps, w, i);
      if !havekids || proc[w].killed { return -1; }
      var _ := Sleep(pid, pid);
      r := -2;
    }

    /** Lines 208-216. */
    method Reap(i: nat) returns (pid: int)
      requires i < proc.Length
      modifies proc
      ensures pid == old(proc[i]).pid && proc[..] == old(proc[..])[i := Reaped(old(proc[i]))]
      ensures proc[i].parent == -1
    {
      pid := proc[i].pid;
      proc[i] := proc[i].(state := UNUSED);
      proc[i] := proc[i].(pid := 0, parent := -1, name := "", killed := false);
    }

    method Kill(pid: int) returns (r: int)
      requires Sane()
      modifies proc
      ensures Sane() && (State(), r) == M.Kill(old(State()), pid)
      ensures old(Ready()) ==> Ready()
    {
      hide Valid, FindPid, Pids;
      if Valid(State()) { QuietKeeps(State(), KillOp(pid)); }
      ghost var was := State();
      var i := 0;
      while i < proc.Length
        invariant 0 <= i <= proc.Length && proc[..] == was.ps
        invariant forall j :: 0 <= j < i ==> was.ps[j].pid != pid
      {
        if proc[i].pid == pid {
          FindPidIs(was.ps, pid, i);
          proc[i] := proc[i].(killed := true);
          if proc[i].state == SLEEPING {
            proc[i] := proc[i].(state := RUNNABLE);
          }
          assert proc[..] == M.Kill(was, pid).0.ps;
          return 0;
        }
        i := i + 1;
      }
      FindPidIs(was.ps, pid, i);
      r := -1;
    }
  }
}
