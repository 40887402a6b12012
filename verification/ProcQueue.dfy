/** firstlab/proc.c: the doubly linked queue of processes, ordered by priority and then by age. */
module ProcQueue {

  const START_PID := 1024
  const INT_MAX := 0x7fff_ffff

  // ---------- the queue as a sequence of keys ----------

  datatype Key = Key(priority: nat, pid: int)

  predicate Before(a: Key, b: Key) {
    a.priority < b.priority || (a.priority == b.priority && a.pid < b.pid)
  }

  predicate Increasing(ks: seq<Key>) {
    forall i, j :: 0 <= i < j < |ks| ==> Before(ks[i], ks[j])
  }

  predicate PidsDistinct(ks: seq<Key>) {
    forall i, j :: 0 <= i < j < |ks| ==> ks[i].pid != ks[j].pid
  }

  /** The kernel process first, then by priority and pid; all pids different and given out already. */
  predicate WellOrdered(ks: seq<Key>, pid: int) {
    && ks != [] && ks[0] == Key(0, START_PID) && Increasing(ks) && PidsDistinct(ks)
    && forall i :: 0 <= i < |ks| ==> START_PID <= ks[i].pid < pid && (i > 0 ==> ks[i].priority > 0)
  }

  lemma KernelFirst(ks: seq<Key>, pid: int)
    requires WellOrdered(ks, pid)
    ensures ks[0] == Key(0, START_PID)
  {
  }

  /** Where enqueue_proc stops: before the first process of larger priority. */
  function Slot(ks: seq<Key>, priority: nat): (k: nat)
    ensures k <= |ks|
    ensures forall i :: 0 <= i < k ==> ks[i].priority <= priority
    ensures k < |ks| ==> priority < ks[k].priority
    decreases |ks|
  {
    if ks == [] || priority < ks[0].priority then 0 else 1 + Slot(ks[1..], priority)
  }

  function Enqueued(ks: seq<Key>, p: Key): seq<Key> {
    ks[..Slot(ks, p.priority)] + [p] + ks[Slot(ks, p.priority)..]
  }

  /** Where kill looks: every process but the last. */
  function Found(ks: seq<Key>, pid: int): (k: nat)
    ensures k <= |ks|
    ensures k < |ks| ==> k + 1 < |ks| && ks[k].pid == pid
    ensures forall i :: 0 <= i < k && i + 1 < |ks| ==> ks[i].pid != pid
    decreases |ks|
  {
    if |ks| <= 1 then |ks| else if ks[0].pid == pid then 0 else 1 + Found(ks[1..], pid)
  }

  function Killed(ks: seq<Key>, pid: int): seq<Key> {
    var k := Found(ks, pid);
    if k < |ks| then ks[..k] + ks[k + 1..] else ks
  }

  /** r is ks with a new key at place k. */
  predicate InsertedAt(ks: seq<Key>, k: nat, p: Key, r: seq<Key>) {
    && k <= |ks| && |r| == |ks| + 1
    && (forall i :: 0 <= i < k ==> r[i] == ks[i]) && r[k] == p
    && (forall i :: k <= i < |ks| ==> r[i + 1] == ks[i])
  }

  lemma InsertedOrdered(ks: seq<Key>, k: nat, p: Key, r: seq<Key>)
    requires WellOrdered(ks, p.pid) && p.priority > 0 && InsertedAt(ks, k, p, r)
    requires forall i :: 0 <= i < k ==> ks[i].priority <= p.priority
    requires forall i :: k <= i < |ks| ==> p.priority < ks[i].priority
    ensures WellOrdered(r, p.pid + 1)
  {
    assert k > 0 && r[0] == ks[0];
    forall i | 0 <= i < |r| ensures START_PID <= r[i].pid < p.pid + 1 && (i > 0 ==> r[i].priority > 0) {
      assert i > k ==> r[i] == ks[i - 1];
    }
    forall i, j | 0 <= i < j < |r| ensures Before(r[i], r[j]) && r[i].pid != r[j].pid {
      InsertedPair(ks, k, p, r, i, j);
    }
  }

  lemma InsertedPair(ks: seq<Key>, k: nat, p: Key, r: seq<Key>, i: nat, j: nat)
    requires WellOrdered(ks, p.pid) && InsertedAt(ks, k, p, r) && i < j < |r|
    requires forall i :: 0 <= i < k ==> ks[i].priority <= p.priority
    requires forall i :: k <= i < |ks| ==> p.priority < ks[i].priority
    ensures Before(r[i], r[j]) && r[i].pid != r[j].pid
  {
    var a := if i < k then i else i - 1;
    var b := if j < k then j else j - 1;
    assert i != k ==> r[i] == ks[a];
    assert j != k ==> r[j] == ks[b];
    assert i != k && j != k ==> Before(ks[a], ks[b]) && ks[a].pid != ks[b].pid;
  }

  lemma SlotSeparates(ks: seq<Key>, priority: nat)
    requires Increasing(ks)
    ensures forall i :: Slot(ks, priority) <= i < |ks| ==> priority < ks[i].priority
  {
    var k := Slot(ks, priority);
    forall i | k <= i < |ks| ensures priority < ks[i].priority {
      assert i == k || Before(ks[k], ks[i]);
    }
  }

  /** A new process joins behind all of its priority, and nothing else moves. */
  lemma EnqueueOrdered(ks: seq<Key>, pid: int, priority: nat)
    requires WellOrdered(ks, pid) && priority > 0
    ensures WellOrdered(Enqueued(ks, Key(priority, pid)), pid + 1)
  {
    var k, r := Slot(ks, priority), Enqueued(ks, Key(priority, pid));
    SlotSeparates(ks, priority);
    hide Increasing, PidsDistinct;
    InsertedOrdered(ks, k, Key(priority, pid), r);
  }

  lemma EnqueueContents(ks: seq<Key>, p: Key)
    ensures multiset(Enqueued(ks, p)) == multiset(ks) + multiset{p}
  {
    assert ks == ks[..Slot(ks, p.priority)] + ks[Slot(ks, p.priority)..];
  }

  lemma RemovedOrdered(ks: seq<Key>, pid: int, k: nat)
    requires WellOrdered(ks, pid) && 0 < k < |ks|
    ensures WellOrdered(ks[..k] + ks[k + 1..], pid)
  {
    var r := ks[..k] + ks[k + 1..];
    forall i, j | 0 <= i < j < |r| ensures Before(r[i], r[j]) && r[i].pid != r[j].pid {
      assert Before(ks[if i < k then i else i + 1], ks[if j < k then j else j + 1]);
    }
  }

  lemma KilledKeys(ks: seq<Key>, victim: int, a: Key)
    requires PidsDistinct(ks) && ks != []
    ensures a in Killed(ks, victim) <==> a in ks && (a.pid != victim || a == ks[|ks| - 1])
  {
    var k, r := Found(ks, victim), Killed(ks, victim);
    if k < |ks| {
      assert forall i :: 0 <= i < |r| ==> r[i] == if i < k then ks[i] else ks[i + 1];
      if a in ks && (a.pid != victim || a == ks[|ks| - 1]) {
        var i :| 0 <= i < |ks| && ks[i] == a;
        assert r[if i < k then i else i - 1] == a;
      }
    }
  }

  /** Anything but the kernel process in front of others. */
  predicate MayKill(ks: seq<Key>, victim: int) {
    victim != START_PID || |ks| == 1
  }

  /** kill keeps the order exactly when it may kill the victim. */
  lemma KillOrdered(ks: seq<Key>, pid: int, victim: int)
    requires WellOrdered(ks, pid)
    ensures WellOrdered(Killed(ks, victim), pid) <==> MayKill(ks, victim)
  {
    hide Increasing, PidsDistinct;
    var k := Found(ks, victim);
    if 0 < k < |ks| {
      assert ks[k].pid == victim && ks[k].pid != ks[0].pid by { PidsApart(ks, 0, k); }
      RemovedOrdered(ks, pid, k);
    }
    if k == 0 { NoKernel(ks, pid); }
  }

  lemma PidsApart(ks: seq<Key>, i: nat, j: nat)
    requires PidsDistinct(ks) && i < j < |ks|
    ensures ks[i].pid != ks[j].pid
  {
  }

  lemma NoKernel(ks: seq<Key>, pid: int)
    requires WellOrdered(ks, pid) && |ks| > 1
    ensures !WellOrdered(ks[1..], pid)
  {
    PidsApart(ks, 0, 1);
  }

  /** kill removes a process exactly when it is in the queue and not its tail. */
  lemma KillRemoves(ks: seq<Key>, pid: int, victim: int)
    requires WellOrdered(ks, pid)
    ensures forall a :: a in Killed(ks, victim) <==> a in ks && (a.pid != victim || a == ks[|ks| - 1])
  {
    forall a ensures a in Killed(ks, victim) <==> a in ks && (a.pid != victim || a == ks[|ks| - 1]) {
      KilledKeys(ks, victim, a);
    }
  }

  datatype Op = Forq(priority: int) | Kill(pid: int)

  /** The queue and the next pid after one call. */
  function Step(ks: seq<Key>, pid: int, op: Op): (seq<Key>, int) {
    match op
    case Forq(priority) => if priority <= 0 then (ks, pid) else (Enqueued(ks, Key(priority, pid)), pid + 1)
    case Kill(victim) => (Killed(ks, victim), pid)
  }

  function Run(ks: seq<Key>, pid: int, ops: seq<Op>): (seq<Key>, int)
    decreases |ops|
  {
    if ops == [] then (ks, pid) else var (ls, next) := Step(ks, pid, ops[0]); Run(ls, next, ops[1..])
  }

  /** No call of the run kills the kernel process in front of others. */
  predicate Spares(ks: seq<Key>, pid: int, ops: seq<Op>)
    decreases |ops|
  {
    if ops == [] then true
    else
      && (ops[0].Kill? ==> MayKill(ks, ops[0].pid))
      && var (ls, next) := Step(ks, pid, ops[0]); Spares(ls, next, ops[1..])
  }

  /** Every run from bootstrap that spares the kernel process keeps the order. */
  lemma {:induction false} RunOrdered(ks: seq<Key>, pid: int, ops: seq<Op>)
    requires WellOrdered(ks, pid) && Spares(ks, pid, ops)
    ensures WellOrdered(Run(ks, pid, ops).0, Run(ks, pid, ops).1)
    decreases |ops|
  {
    hide WellOrdered, Enqueued, Killed, MayKill;
    if ops != [] {
      match ops[0] {
        case Forq(priority) => if priority > 0 { EnqueueOrdered(ks, pid, priority); }
        case Kill(victim) => KillOrdered(ks, pid, victim);
      }
      var (ls, next) := Step(ks, pid, ops[0]);
      RunOrdered(ls, next, ops[1..]);
    }
  }

  lemma {:induction false} SlotIs(ks: seq<Key>, priority: nat, k: nat)
    requires k <= |ks| && (forall i :: 0 <= i < k ==> ks[i].priority <= priority)
    requires k < |ks| ==> priority < ks[k].priority
    ensures Slot(ks, priority) == k
    decreases k
  {
    if k > 0 { SlotIs(ks[1..], priority, k - 1); }
  }

  lemma {:induction false} FoundIs(ks: seq<Key>, pid: int, k: nat)
    requires ks != [] && k < |ks| && (forall i :: 0 <= i < k ==> ks[i].pid != pid)
    ensures k < |ks| - 1 && ks[k].pid == pid ==> Found(ks, pid) == k
    ensures k == |ks| - 1 ==> Found(ks, pid) == |ks|
    decreases k
  {
    if k > 0 { FoundIs(ks[1..], pid, k - 1); }
  }

  // ---------- the linked list ----------

  datatype Procstate = UNUSED | EMBRYO | SLEEPING | RUNNABLE | RUNNING | ZOMBIE

  class Proc {
    var priority: nat
    var pid: int
    var name: string
    var state: Procstate
    var parent: Proc?
    var prev: Proc?
    var next: Proc?

    constructor (name: string, priority: nat, pid: int, parent: Proc?)
      ensures this.name == name && this.priority == priority && this.pid == pid && this.parent == parent
      ensures state == EMBRYO && prev == null && next == null
    {
      this.name, this.priority, this.pid, this.parent := name, priority, pid, parent;
      state, prev, next := EMBRYO, null, null;
    }
  }

  ghost function NextOf(nodes: seq<Proc>, i: int): Proc?
    requires 0 <= i < |nodes|
  {
    if i + 1 < |nodes| then nodes[i + 1] else null
  }

  ghost function PrevOf(nodes: seq<Proc>, i: int): Proc?
    requires 0 <= i <= |nodes|
  {
    if i > 0 then nodes[i - 1] else null
  }

  ghost predicate Distinct(nodes: seq<Proc>) {
    forall i, j :: 0 <= i < j < |nodes| ==> nodes[i] != nodes[j]
  }

  /** next and prev run through the nodes in order, both ways. */
  ghost predicate Chained(nodes: seq<Proc>)
    reads nodes
  {
    forall i :: 0 <= i < |nodes| ==> nodes[i].next == NextOf(nodes, i) && nodes[i].prev == PrevOf(nodes, i)
  }

  ghost function Keys(nodes: seq<Proc>): (ks: seq<Key>)
    reads nodes
    ensures |ks| == |nodes| && forall i :: 0 <= i < |ks| ==> ks[i] == Key(nodes[i].priority, nodes[i].pid)
  {
    seq(|nodes|, i requires 0 <= i < |nodes| reads nodes => Key(nodes[i].priority, nodes[i].pid))
  }

  class Queue {
    var kernelProc: Proc?
    /** The next process id; the source's global pid. */
    var pid: int
    /** The queue's nodes in order. */
    ghost var nodes: seq<Proc>

    ghost predicate Valid()
      reads this, nodes
    {
      && nodes != [] && kernelProc == nodes[0] && Distinct(nodes) && Chained(nodes)
      && WellOrdered(Keys(nodes), pid)
    }

    /** bootstrap */
    constructor ()
      ensures Valid() && fresh(nodes) && Keys(nodes) == [Key(0, START_PID)] && pid == START_PID + 1
      ensures kernelProc.name == "kernel_process" && kernelProc.parent == kernelProc && kernelProc.state == RUNNABLE
    {
      var k := new Proc("kernel_process", 0, START_PID, null);
      kernelProc, pid := k, START_PID + 1;
      nodes := [k];
      new;
      k.parent := k;
      k.state := RUNNABLE;
    }

    /** The process with this id, or null. */
    method FindProc(pid: int) returns (p: Proc?)
      requires Valid()
      ensures p == null <==> forall i :: 0 <= i < |nodes| ==> nodes[i].pid != pid
      ensures p != null ==> p in nodes && p.pid == pid
    {
      p := kernelProc;
      ghost var i := 0;
      while p != null
        invariant 0 <= i <= |nodes| && p == if i < |nodes| then nodes[i] else null
        invariant forall j :: 0 <= j < i ==> nodes[j].pid != pid
        decreases |nodes| - i
      {
        if p.pid == pid { return; }
        assert p.next == NextOf(nodes, i);
        p := p.next;
        i := i + 1;
      }
    }

    /** Puts p between prev and cur, or behind prev at the end of the list. */
    method LinkIn(p: Proc, cur: Proc?, prev: Proc)
      requires p != prev && p != cur && p.next == null && (cur != null ==> cur.prev == prev)
      modifies p`next, p`prev, prev`next, (if cur == null then {} else {cur})`prev
      ensures p.next == cur && p.prev == prev && prev.next == p && (cur != null ==> cur.prev == p)
    {
      if cur != null {
        p.next := cur;
        p.prev := cur.prev;
        prev.next := p;
        cur.prev := p;
      } else {
        p.prev := prev;
        prev.next := p;
      }
    }

    /** enqueue_proc's loop: the first process of larger priority, and the one before it. */
    method FindSlot(priority: nat) returns (cur: Proc?, prev: Proc, ghost k: nat)
      requires nodes != [] && kernelProc == nodes[0] && Chained(nodes) && nodes[0].priority <= priority
      ensures 0 < k <= |nodes| && k == Slot(Keys(nodes), priority)
      ensures prev == nodes[k - 1] && cur == (if k < |nodes| then nodes[k] else null)
      ensures cur != null ==> cur.prev == prev
    {
      hide Slot, Keys, Chained;
      LinksAt(nodes);
      cur := kernelProc;
      var last: Proc? := null;
      k := 0;
      while cur != null && priority >= cur.priority
        invariant 0 <= k <= |nodes|
        invariant cur == (if k < |nodes| then nodes[k] else null) && last == PrevOf(nodes, k)
        invariant forall j :: 0 <= j < k ==> nodes[j].priority <= priority
        decreases |nodes| - k
      {
        assert cur.next == NextOf(nodes, k);
        last := cur;
        cur := cur.next;
        k := k + 1;
      }
      prev := last;
      assert cur != null ==> cur.prev == PrevOf(nodes, k);
      SlotIs(Keys(nodes), priority, k);
    }

    /** enqueue_proc: before the first process of larger priority, else at the end. */
    method EnqueueProc(p: Proc) returns (ok: bool)
      requires nodes != [] && kernelProc == nodes[0] && Distinct(nodes) && Chained(nodes)
      requires nodes[0].priority <= p.priority && p !in nodes && p.next == null
      modifies this`nodes, p`state, p`next, p`prev, nodes`next, nodes`prev
      ensures ok && p.state == EMBRYO
      ensures nodes != [] && kernelProc == nodes[0] && Distinct(nodes) && Chained(nodes)
      ensures |nodes| == |old(nodes)| + 1 && forall n :: n in nodes <==> n in old(nodes) || n == p
      ensures Keys(nodes) == Enqueued(old(Keys(nodes)), Key(p.priority, p.pid))
    {
      hide Slot, Distinct, Chained, Keys;
      ghost var ns, ks := nodes, Keys(nodes);
      p.state := EMBRYO;
      var cur, prev, k := FindSlot(p.priority);
      Splice(p, cur, prev, k);
      assert Keys(nodes) == ks[..k] + [Key(p.priority, p.pid)] + ks[k..];
      ok := true;
    }

    /** Puts p into the list as node k. */
    method Splice(p: Proc, cur: Proc?, prev: Proc, ghost k: nat)
      requires Distinct(nodes) && Chained(nodes) && p !in nodes && 0 < k <= |nodes| && p.next == null
      requires prev == nodes[k - 1] && cur == (if k < |nodes| then nodes[k] else null)
      requires cur != null ==> cur.prev == prev
      modifies this`nodes, p`next, p`prev, nodes`next, nodes`prev
      ensures nodes == old(nodes)[..k] + [p] + old(nodes)[k..] && Distinct(nodes) && Chained(nodes)
    {
      hide NextOf, PrevOf;
      ghost var ns := nodes;
      LinkIn(p, cur, prev);
      ChainedWith(ns, k, p);
      nodes := ns[..k] + [p] + ns[k..];
    }

    /** forq: a positive priority puts a new process into the queue; its pid is the answer. The
        process has the name, and for its parent the one of the queue with pid ppid, or null. */
    method Forq(name: string, priority: int, ppid: int) returns (r: int, ghost p: Proc?)
      requires Valid() && pid < INT_MAX
      modifies this, nodes`next, nodes`prev
      ensures Valid()
      ensures (Keys(nodes), pid) == Step(old(Keys(nodes)), old(pid), Op.Forq(priority))
      ensures r == if priority <= 0 then 0 else old(pid)
      ensures priority <= 0 ==> p == null && nodes == old(nodes)
      ensures priority > 0 ==>
                && p != null && fresh(p) && p.pid == r && p.priority == priority && p.name == name && p.state == EMBRYO
                && (forall n :: n in nodes <==> n in old(nodes) || n == p)
                && (p.parent == null <==> forall i :: 0 <= i < |old(nodes)| ==> old(nodes)[i].pid != ppid)
                && (p.parent != null ==> p.parent in old(nodes) && p.parent.pid == ppid)
    {
      hide NextOf, PrevOf, WellOrdered, Enqueued, Distinct, Chained, Keys, Increasing, PidsDistinct;
      if priority <= 0 { return 0, null; }
      KernelFirst(Keys(nodes), pid);
      EnqueueOrdered(Keys(nodes), pid, priority);
      var newp := NewProc(name, priority, ppid);
      p := newp;
      var ok := EnqueueProc(newp);
      if ok { return newp.pid, p; }
      r := 0;
    }

    /** new_proc: takes the next pid; the parent is looked up in the queue. */
    method NewProc(name: string, priority: nat, ppid: int) returns (p: Proc)
      requires Valid() && pid < INT_MAX
      modifies this`pid
      ensures Valid() && fresh(p) && pid == old(pid) + 1 && nodes == old(nodes)
      ensures p.priority == priority && p.pid == old(pid) && p.name == name && p.state == EMBRYO && p.next == null
      ensures p.parent == null <==> forall i :: 0 <= i < |nodes| ==> nodes[i].pid != ppid
      ensures p.parent != null ==> p.parent in nodes && p.parent.pid == ppid
    {
      hide NextOf, PrevOf, Distinct, Chained, Increasing, PidsDistinct;
      var id := pid;
      pid := pid + 1;
      var parent := FindProc(ppid);
      p := new Proc(name, priority, id, parent);
    }

    /** kill's loop: the process with this id, unless it is the last. */
    method FindVictim(victim: int) returns (cur: Proc, ghost k: nat)
      requires nodes != [] && kernelProc == nodes[0] && Chained(nodes)
      ensures k < |nodes| && cur == nodes[k]
      ensures cur.next == NextOf(nodes, k) && cur.prev == PrevOf(nodes, k)
      ensures Found(Keys(nodes), victim) == if cur.next != null then k else |nodes|
      ensures k + 1 < |nodes| <==> cur.next != null
    {
      cur := kernelProc;
      k := 0;
      assert cur.next == NextOf(nodes, 0);
      while cur.next != null && cur.pid != victim
        invariant 0 <= k < |nodes| && cur == nodes[k] && cur.next == NextOf(nodes, k)
        invariant forall j :: 0 <= j < k ==> nodes[j].pid != victim
        decreases |nodes| - k
      {
        cur := cur.next;
        k := k + 1;
        assert cur.next == NextOf(nodes, k);
      }
      FoundIs(Keys(nodes), victim, k);
    }

    /** Takes nodes[k] out of the list. */
    method LinkOut(cur: Proc, ghost k: nat)
      requires 0 < k < |nodes| - 1 && cur == nodes[k] && Distinct(nodes) && Chained(nodes)
      modifies this`nodes, nodes`next, nodes`prev
      ensures nodes == old(nodes)[..k] + old(nodes)[k + 1..] && Distinct(nodes) && Chained(nodes)
      ensures forall n :: n in nodes ==> n in old(nodes)
    {
      ghost var ns := nodes;
      assert cur.prev == PrevOf(ns, k) == ns[k - 1] && cur.next == NextOf(ns, k) == ns[k + 1];
      hide NextOf, PrevOf;
      cur.prev.next := cur.next;
      cur.next.prev := cur.prev;
      ChainedWithout(ns, k);
      nodes := ns[..k] + ns[k + 1..];
    }

    /** kill: takes the process out unless it is the last one, which the loop never looks at. The
        kernel process has no prev to relink. */
    method Kill(victim: int) returns (r: bool)
      requires Valid() && MayKill(Keys(nodes), victim)
      modifies this`nodes, nodes`next, nodes`prev
      ensures r && Valid() && pid == old(pid)
      ensures Keys(nodes) == Killed(old(Keys(nodes)), victim)
      ensures forall n :: n in nodes ==> n in old(nodes)
      ensures forall i :: 0 <= i < |old(nodes)| ==>
                (old(nodes)[i] in nodes <==> old(nodes)[i].pid != victim || i == |old(nodes)| - 1)
    {
      hide NextOf, PrevOf, WellOrdered, Distinct, Chained, Keys, Increasing, PidsDistinct, Found;
      ghost var ns, ks := nodes, Keys(nodes);
      KernelFirst(ks, pid);
      KillOrdered(ks, pid, victim);
      var cur, k := FindVictim(victim);
      if cur.next != null {
        assert k > 0 && |ks| > 1;
        LinkOut(cur, k);
        assert Keys(nodes) == ks[..k] + ks[k + 1..];
        NodesLeft(ns, ks, pid, victim);
      } else {
        NodesLeft(ns, ks, pid, victim);
      }
      r := true;
    }
  }

  lemma LinksAt(nodes: seq<Proc>)
    requires Chained(nodes)
    ensures forall i :: 0 <= i < |nodes| ==> nodes[i].next == NextOf(nodes, i) && nodes[i].prev == PrevOf(nodes, i)
  {
  }

  /** Who stays: all but the process found. */
  lemma NodesLeft(ns: seq<Proc>, ks: seq<Key>, pid: int, victim: int)
    requires WellOrdered(ks, pid) && Distinct(ns) && |ns| == |ks|
    ensures var k := Found(ks, victim);
            var left := if k < |ks| then ns[..k] + ns[k + 1..] else ns;
            forall i :: 0 <= i < |ns| ==> (ns[i] in left <==> ks[i].pid != victim || i == |ns| - 1)
  {
    var k := Found(ks, victim);
    if k < |ks| {
      var left := ns[..k] + ns[k + 1..];
      forall i | 0 <= i < |ns| ensures ns[i] in left <==> ks[i].pid != victim || i == |ns| - 1 {
        assert i < k ==> left[i] == ns[i];
        assert i > k ==> left[i - 1] == ns[i];
      }
    }
  }

  /** Where the links are those of ns except around place k, where p was put in. */
  lemma ChainedWith(ns: seq<Proc>, k: nat, p: Proc)
    requires 0 < k <= |ns| && Distinct(ns) && p !in ns
    requires forall i :: 0 <= i < |ns| ==> ns[i].next == if i == k - 1 then p else NextOf(ns, i)
    requires forall i :: 0 <= i < |ns| ==> ns[i].prev == if i == k then p else PrevOf(ns, i)
    requires p.next == (if k < |ns| then ns[k] else null) && p.prev == ns[k - 1]
    ensures Distinct(ns[..k] + [p] + ns[k..]) && Chained(ns[..k] + [p] + ns[k..])
  {
    var r := ns[..k] + [p] + ns[k..];
    forall i | 0 <= i < |r| ensures r[i].next == NextOf(r, i) && r[i].prev == PrevOf(r, i) {
      assert i > k ==> r[i] == ns[i - 1];
    }
  }

  /** Where the links are those of ns except around place k, which was taken out. */
  lemma ChainedWithout(ns: seq<Proc>, k: nat)
    requires 0 < k < |ns| - 1 && Distinct(ns)
    requires forall i :: 0 <= i < |ns| ==> ns[i].next == if i == k - 1 then ns[k + 1] else NextOf(ns, i)
    requires forall i :: 0 <= i < |ns| ==> ns[i].prev == if i == k + 1 then ns[k - 1] else PrevOf(ns, i)
    ensures Distinct(ns[..k] + ns[k + 1..]) && Chained(ns[..k] + ns[k + 1..])
  {
    var r := ns[..k] + ns[k + 1..];
    forall i | 0 <= i < |r| ensures r[i].next == NextOf(r, i) && r[i].prev == PrevOf(r, i) {
      assert i >= k ==> r[i] == ns[i + 1];
    }
  }
}
