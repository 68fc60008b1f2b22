/** sched.c: the rotation of one run queue, as a function of the queue. */
module RoundRobin {

  /** A run queue, and the tasks that were made current, in order. */
  datatype Turn<T> = Turn(queue: seq<T>, ran: seq<T>)

  /** One call: the head runs and goes to the back, unless it is not ready or there is none. */
  function Switched<T(==)>(t: Turn<T>, ready: set<T>): Turn<T>
  {
    if t.queue == [] || t.queue[0] !in ready then t
    else Turn(t.queue[1..] + [t.queue[0]], t.ran + [t.queue[0]])
  }

  function Rounds<T(==)>(q: seq<T>, ready: set<T>, k: nat): Turn<T>
  {
    if k == 0 then Turn(q, []) else Switched(Rounds(q, ready, k - 1), ready)
  }

  function Count<T(==)>(s: seq<T>, x: T): nat
  {
    if s == [] then 0 else Count(s[..|s| - 1], x) + if s[|s| - 1] == x then 1 else 0
  }

  function Rotated<T>(q: seq<T>, n: nat): seq<T>
    requires n <= |q|
  {
    q[n..] + q[..n]
  }

  lemma ModStep(k: nat, n: nat)
    requires n > 0
    ensures (k + 1) % n == if k % n + 1 == n then 0 else k % n + 1
    ensures (k + 1) / n == if k % n + 1 == n then k / n + 1 else k / n
  {
    var q, r := k / n, k % n;
    assert k + 1 == q * n + (r + 1);
    if r + 1 == n {
      assert k + 1 == (q + 1) * n;
      Quotient(k + 1, n, q + 1, 0);
    } else {
      Quotient(k + 1, n, q, r + 1);
    }
  }

  lemma Quotient(k: nat, n: nat, q: nat, r: nat)
    requires r < n && k == q * n + r
    ensures k / n == q && k % n == r
  {
    var d := k / n - q;
    assert k == (k / n) * n + k % n;
    assert d * n == (k / n) * n - q * n;
    assert d >= 1 ==> d * n >= n;
    assert d <= -1 ==> d * n + n <= 0;
  }

  /** With every task ready, k calls rotate the queue by k mod n, and the j-th call runs task j mod n. */
  lemma {:induction false} KCallsRotate<T>(q: seq<T>, ready: set<T>, k: nat)
    requires q != [] && forall i | 0 <= i < |q| :: q[i] in ready
    ensures var t := Rounds(q, ready, k);
            && t.queue == Rotated(q, k % |q|)
            && |t.ran| == k && forall j | 0 <= j < k :: t.ran[j] == q[j % |q|]
  {
    if k > 0 {
      KCallsRotate(q, ready, k - 1);
      ModStep(k - 1, |q|);
      var r := (k - 1) % |q|;
      assert Rotated(q, r)[0] == q[r];
      assert Rotated(q, r)[1..] + [q[r]] == q[r + 1..] + q[..r + 1];
      if r + 1 == |q| {
        assert q[r + 1..] + q[..r + 1] == Rotated(q, 0);
      }
    }
  }

  lemma CountSnoc<T>(s: seq<T>, y: T, x: T)
    ensures Count(s + [y], x) == Count(s, x) + if y == x then 1 else 0
  {
    assert (s + [y])[..|s|] == s;
  }

  lemma SamePlace<T>(q: seq<T>, r: nat, i: nat)
    requires r < |q| && i < |q| && forall a, b | 0 <= a < b < |q| :: q[a] != q[b]
    ensures q[r] == q[i] <==> r == i
  {
  }

  lemma OneMoreRuns<T>(q: seq<T>, ready: set<T>, k: nat, k': nat, x: T, i: nat)
    requires k' == k + 1 && i < |q| && q[i] == x && forall j | 0 <= j < |q| :: q[j] in ready
    requires forall a, b | 0 <= a < b < |q| :: q[a] != q[b]
    ensures Count(Rounds(q, ready, k').ran, x) == Count(Rounds(q, ready, k).ran, x) + if k % |q| == i then 1 else 0
  {
    KCallsRotate(q, ready, k);
    var r := k % |q|;
    assert Rotated(q, r)[0] == q[r];
    CountSnoc(Rounds(q, ready, k).ran, q[r], x);
    assert Rounds(q, ready, k').ran == Rounds(q, ready, k).ran + [q[r]];
    SamePlace(q, r, i);
  }

  /** floor(k/n) for each place, and one more for the first k mod n places. */
  function Share(k: nat, n: nat, i: nat): nat
    requires n > 0
  {
    k / n + if i < k % n then 1 else 0
  }

  lemma ShareStep(k: nat, k': nat, n: nat, i: nat)
    requires k' == k + 1 && i < n
    ensures Share(k', n, i) == Share(k, n, i) + if k % n == i then 1 else 0
  {
    ModStep(k, n);
  }

  /** Over k calls each task runs floor(k/n) or ceil(k/n) times. */
  lemma {:induction false} EachRunsItsShare<T>(q: seq<T>, ready: set<T>, k: nat, i: nat)
    requires i < |q| && forall j | 0 <= j < |q| :: q[j] in ready
    requires forall a, b | 0 <= a < b < |q| :: q[a] != q[b]
    ensures Count(Rounds(q, ready, k).ran, q[i]) == Share(k, |q|, i)
  {
    if k == 0 {
      Quotient(0, |q|, 0, 0);
    } else {
      EachRunsItsShare(q, ready, k - 1, i);
      OneMoreRuns(q, ready, k - 1, k, q[i], i);
      ShareStep(k - 1, k, |q|, i);
    }
  }

  /** A task that is not ready stops the rotation when it reaches the head: nothing behind it runs again. */
  lemma {:induction false} BlockedHeadStops<T>(q: seq<T>, ready: set<T>, i: nat, k: nat)
    requires i < |q| && q[i] !in ready && forall j | 0 <= j < i :: q[j] in ready
    ensures Rounds(q, ready, k).ran == q[..if k < i then k else i]
    ensures Rounds(q, ready, k).queue == Rotated(q, if k < i then k else i)
  {
    if k == 0 {
      assert Rotated(q, 0) == q;
    } else {
      BlockedHeadStops(q, ready, i, k - 1);
      var r := if k - 1 < i then k - 1 else i;
      assert Rotated(q, r)[0] == q[r];
      if r < i {
        assert q[..r] + [q[r]] == q[..r + 1];
        assert Rotated(q, r)[1..] + [q[r]] == Rotated(q, r + 1);
      }
    }
  }

  /** Everyone gets a turn within n calls exactly when everyone is ready. */
  lemma FairIffAllReady<T>(q: seq<T>, ready: set<T>)
    requires forall a, b | 0 <= a < b < |q| :: q[a] != q[b]
    ensures (forall i | 0 <= i < |q| :: q[i] in Rounds(q, ready, |q|).ran) <==> forall i | 0 <= i < |q| :: q[i] in ready
  {
    var ran := Rounds(q, ready, |q|).ran;
    if forall i | 0 <= i < |q| :: q[i] in ready {
      if q != [] {
        KCallsRotate(q, ready, |q|);
        forall i | 0 <= i < |q|
          ensures q[i] in ran
        {
          Quotient(i, |q|, 0, i);
          assert ran[i] == q[i];
        }
      }
    } else {
      var i := FirstBlocked(q, ready);
      BlockedHeadStops(q, ready, i, |q|);
      assert q[i] !in q[..i];
    }
  }

  lemma {:induction false} FirstBlocked<T>(q: seq<T>, ready: set<T>) returns (i: nat)
    requires exists j :: 0 <= j < |q| && q[j] !in ready
    ensures i < |q| && q[i] !in ready && forall j | 0 <= j < i :: q[j] in ready
  {
    i := 0;
    while q[i] in ready
      invariant i < |q| && forall j | 0 <= j < i :: q[j] in ready
      decreases |q| - i
    {
      i := i + 1;
    }
  }
}

/** sched.c: the task pool, one linked run queue a CPU, and tick accounting. */
module Scheduling {
  import opened RoundRobin

  const MAX_TASKS: nat := 256
  const SLICE: nat := 10
  const WORD: nat := 0x1_0000_0000_0000_0000

  class Task {
    const id: nat
    var ready: bool
    var cpuId: nat
    var timeSlice: nat
    var totalRuntime: nat
    var next: Task?

    constructor (id: nat, cpuId: nat, timeSlice: nat, next: Task?)
      ensures this.id == id && ready && this.cpuId == cpuId && this.timeSlice == timeSlice && totalRuntime == 0
      ensures this.next == next
    {
      this.id, ready, this.cpuId, this.timeSlice, totalRuntime := id, true, cpuId, timeSlice, 0;
      this.next := next;
    }
  }

  class Cpu {
    const isSmt: bool
    var online: bool
    var runQueue: Task?
    var current: Task?

    constructor (isSmt: bool, online: bool)
      ensures this.isSmt == isSmt && this.online == online && runQueue == null && current == null
    {
      this.isSmt, this.online, runQueue, current := isSmt, online, null, null;
    }
  }

  function At(q: seq<Task>, i: nat): Task?
  {
    if i < |q| then q[i] else null
  }

  /** The tasks are linked through `next` in this order. */
  ghost predicate Linked(head: Task?, q: seq<Task>)
    reads q`next
  {
    && (forall i, j | 0 <= i < j < |q| :: q[i] != q[j])
    && head == At(q, 0)
    && forall i {:trigger q[i].next} | 0 <= i < |q| :: q[i].next == At(q, i + 1)
  }

  ghost predicate AllIn(q: seq<Task>, tasks: seq<Task>)
  {
    forall j | 0 <= j < |q| :: q[j] in tasks
  }

  lemma UnlinkHead(head: Task?, q: seq<Task>)
    requires Linked(head, q) && q != []
    ensures head == q[0] && q[0] !in q[1..] && Linked(q[0].next, q[1..])
  {
    var t := q[1..];
    assert q[0].next == At(q, 1) == At(t, 0);
    forall i | 0 <= i < |t|
      ensures t[i].next == At(t, i + 1)
    {
      assert t[i] == q[i + 1] && At(t, i + 1) == At(q, i + 2);
    }
  }

  lemma LinkHead(t: Task, head: Task?, q: seq<Task>)
    requires Linked(head, q) && t !in q && t.next == head
    ensures Linked(t, [t] + q)
  {
    var s := [t] + q;
    assert At(s, 1) == At(q, 0);
    forall i | 0 <= i < |s|
      ensures s[i].next == At(s, i + 1)
    {
      if i > 0 {
        assert s[i] == q[i - 1] && At(s, i + 1) == At(q, i) && q[i - 1].next == At(q, i);
      }
    }
  }

  function Total(queues: seq<seq<Task>>): nat
  {
    if queues == [] then 0 else Total(queues[..|queues| - 1]) + |queues[|queues| - 1]|
  }

  lemma {:induction false} TotalWithOneMore(queues: seq<seq<Task>>, k: nat, q: seq<Task>)
    requires k < |queues|
    ensures Total(queues[k := q]) + |queues[k]| == Total(queues) + |q|
    ensures |queues[k]| <= Total(queues)
  {
    var n := |queues| - 1;
    if k == n {
      assert queues[k := q][..n] == queues[..n];
    } else {
      assert queues[k := q][..n] == queues[..n][k := q];
      TotalWithOneMore(queues[..n], k, q);
    }
  }

  lemma {:induction false} NoQueues(n: nat) returns (queues: seq<seq<Task>>)
    ensures |queues| == n && Total(queues) == 0 && forall i | 0 <= i < n :: queues[i] == []
  {
    queues := [];
    if n > 0 {
      var rest := NoQueues(n - 1);
      queues := rest + [[]];
      assert queues[..n - 1] == rest;
    }
  }

  /** The CPU a new task goes to: the first of the least loaded eligible ones, or CPU 0. */
  ghost predicate IsTarget(queues: seq<seq<Task>>, eligible: set<nat>, n: nat, k: nat)
    requires n <= |queues|
  {
    if forall i | 0 <= i < n :: i !in eligible then k == 0
    else k < n && k in eligible
         && forall i | 0 <= i < n && i in eligible :: |queues[k]| <= |queues[i]| && (i < k ==> |queues[k]| < |queues[i]|)
  }

  const NO_LOAD: nat := 0x7FFF_FFFF

  ghost predicate Found(queues: seq<seq<Task>>, eligible: set<nat>, n: nat, k: nat, minLoad: nat)
    requires n <= |queues|
  {
    && k < |queues| && IsTarget(queues, eligible, n, k)
    && minLoad == if forall i | 0 <= i < n :: i !in eligible then NO_LOAD else |queues[k]|
  }

  lemma FoundNext(queues: seq<seq<Task>>, eligible: set<nat>, n: nat, k: nat, minLoad: nat)
    requires n < |queues| && Found(queues, eligible, n, k, minLoad) && |queues[n]| < NO_LOAD
    ensures n !in eligible || minLoad <= |queues[n]| ==> Found(queues, eligible, n + 1, k, minLoad)
    ensures n in eligible && |queues[n]| < minLoad ==> Found(queues, eligible, n + 1, n, |queues[n]|)
  {
  }

  /** The slice left of a task that ran `n` ticks, and its runtime counter. */
  ghost predicate Accounted(slice: nat, runtime: nat, n: nat)
  {
    slice == SLICE - n % SLICE && runtime == n % WORD
  }

  lemma TickAccounts(slice: nat, runtime: nat, n: nat)
    requires Accounted(slice, runtime, n)
    ensures slice > 0
    ensures Accounted(if slice == 1 then SLICE else slice - 1, (runtime + 1) % WORD, n + 1)
  {
    ModStep(n, SLICE);
    ModStep(n, WORD);
    if runtime + 1 == WORD {
      Quotient(runtime + 1, WORD, 1, 0);
    } else {
      Quotient(runtime + 1, WORD, 0, runtime + 1);
    }
  }

  /** Every created task is in the queue of its own CPU and in no other. */
  ghost predicate Homed(tasks: seq<Task>, queues: seq<seq<Task>>)
    reads tasks`cpuId
  {
    && (forall t | t in tasks :: t.cpuId < |queues| && t in queues[t.cpuId])
    && forall i, j | 0 <= i < |queues| && 0 <= j < |queues[i]| :: queues[i][j] in tasks && queues[i][j].cpuId == i
  }

  lemma HomedApart(tasks: seq<Task>, queues: seq<seq<Task>>, i: nat, k: nat)
    requires Homed(tasks, queues) && i < |queues| && k < |queues| && i != k
    ensures forall j | 0 <= j < |queues[i]| :: queues[i][j] !in queues[k]
  {
    forall j | 0 <= j < |queues[i]|
      ensures queues[i][j] !in queues[k]
    {
      assert queues[i][j].cpuId == i;
    }
  }

  lemma RotateKeepsHomes(tasks: seq<Task>, queues: seq<seq<Task>>, k: nat)
    requires Homed(tasks, queues) && k < |queues| && queues[k] != []
    ensures Homed(tasks, queues[k := queues[k][1..] + [queues[k][0]]])
  {
    var q := queues[k][1..] + [queues[k][0]];
    forall x
      ensures x in q <==> x in queues[k]
    {
      assert queues[k] == [queues[k][0]] + queues[k][1..];
    }
  }

  lemma PushKeepsHomes(tasks: seq<Task>, queues: seq<seq<Task>>, t: Task)
    requires Homed(tasks, queues) && t !in tasks && t.cpuId < |queues|
    ensures Homed(tasks + [t], queues[t.cpuId := [t] + queues[t.cpuId]])
  {
  }

  method Load(head: Task?, ghost q: seq<Task>) returns (load: nat)
    requires Linked(head, q)
    ensures load == |q|
  {
    load := 0;
    var t := head;
    while t != null
      invariant load <= |q| && t == At(q, load)
      decreases |q| - load
    {
      assert q[load].next == At(q, load + 1);
      load, t := load + 1, t.next;
    }
  }

  /** Puts a task that is in no list behind the last one. */
  method PutLast(head: Task?, t: Task, ghost q: seq<Task>) returns (first: Task)
    requires Linked(head, q) && t !in q && t.next == null
    modifies q`next
    ensures Linked(first, q + [t])
  {
    if head == null {
      return t;
    }
    var tail: Task := head;
    ghost var i := 0;
    while tail.next != null
      invariant 0 <= i < |q| && tail == q[i]
      decreases |q| - i
    {
      assert q[i].next == At(q, i + 1);
      tail, i := tail.next, i + 1;
    }
    assert q[i].next == At(q, i + 1);
    tail.next := t;
    first := head;
  }

  /** The head goes to the back. */
  method Rotate(head: Task, ghost q: seq<Task>) returns (first: Task)
    requires Linked(head, q)
    modifies q`next
    ensures q != [] && q[0] == head && Linked(first, q[1..] + [q[0]])
  {
    UnlinkHead(head, q);
    var rest := head.next;
    head.next := null;
    first := PutLast(rest, head, q[1..]);
  }

  class Scheduler {
    const cpus: seq<Cpu>
    const idle: seq<Task>
    var tasks: seq<Task>
    var smtAware: bool
    ghost var queues: seq<seq<Task>>
    ghost var ran: seq<Task>
    ghost var ticks: map<Task, nat>

    ghost predicate Shape()
      reads this`tasks, this`queues
    {
      && 0 < |cpus| && |queues| == |cpus| && |idle| == |cpus| && |tasks| <= MAX_TASKS
      && (forall i, j | 0 <= i < j < |cpus| :: cpus[i] != cpus[j])
      && (forall i | 0 <= i < |idle| :: idle[i] !in tasks)
      && Total(queues) == |tasks|
    }

    ghost predicate QueueLinked(i: nat)
      requires Shape() && i < |cpus|
      reads this`tasks, this`queues, cpus`runQueue, tasks`next
    {
      AllIn(queues[i], tasks) && Linked(cpus[i].runQueue, queues[i])
    }

    ghost predicate AllLinked()
      requires Shape()
      reads this`tasks, this`queues, cpus`runQueue, tasks`next
    {
      forall i | 0 <= i < |cpus| :: QueueLinked(i)
    }

    ghost predicate Queued()
      requires Shape()
      reads this`tasks, this`queues, cpus`runQueue, tasks`next, tasks`cpuId
    {
      AllLinked() && Homed(tasks, queues)
    }

    /** Created tasks are accounted for, and idle tasks never run a tick. */
    ghost predicate Ticked()
      requires Shape()
      reads this`tasks, this`queues, this`ticks
      reads tasks`timeSlice, tasks`totalRuntime, idle`timeSlice, idle`totalRuntime
    {
      && (forall t | t in tasks :: t in ticks && Accounted(t.timeSlice, t.totalRuntime, ticks[t]))
      && forall i | 0 <= i < |idle| :: idle[i].timeSlice == 0 && idle[i].totalRuntime == 0
    }

    /** Only CPU 0 is ever scheduled. */
    ghost predicate Currents()
      requires Shape()
      reads this`tasks, this`queues, cpus`current
    {
      && (cpus[0].current == null || cpus[0].current in tasks || cpus[0].current == idle[0])
      && forall i | 1 <= i < |cpus| :: cpus[i].current == null
    }

    ghost predicate Valid()
      reads this, cpus, tasks, idle
    {
      Shape() && Queued() && Ticked() && Currents()
    }

    constructor (cpus: seq<Cpu>, idle: seq<Task>, smtAware: bool)
      requires 0 < |cpus| == |idle| && forall i, j | 0 <= i < j < |cpus| :: cpus[i] != cpus[j]
      requires forall c | c in cpus :: c.runQueue == null && c.current == null
      requires forall t | t in idle :: t.timeSlice == 0 && t.totalRuntime == 0
      ensures Valid() && this.cpus == cpus && this.idle == idle && this.smtAware == smtAware
      ensures tasks == [] && ran == [] && forall i | 0 <= i < |cpus| :: queues[i] == []
    {
      this.cpus, this.idle, this.smtAware := cpus, idle, smtAware;
      ghost var empty := NoQueues(|cpus|);
      tasks, queues, ran, ticks := [], empty, [], map[];
    }

    ghost function Eligible(): set<nat>
      requires Shape()
      reads this, cpus
    {
      set i | 0 <= i < |cpus| && cpus[i].online && !(smtAware && cpus[i].isSmt)
    }

    ghost function Ready(): set<Task>
      reads this, tasks
    {
      set t | t in tasks && t.ready
    }

    method TargetCpu() returns (target: nat)
      requires Shape() && Queued()
      ensures target < |cpus| && IsTarget(queues, Eligible(), |cpus|, target)
      ensures forall i | 0 <= i < |cpus| && cpus[i].online && (smtAware ==> !cpus[i].isSmt) ::
                && cpus[target].online && (smtAware ==> !cpus[target].isSmt)
                && |queues[target]| <= |queues[i]| && (i < target ==> |queues[target]| < |queues[i]|)
    {
      target := 0;
      var minLoad := NO_LOAD;
      ghost var e := Eligible();
      for i := 0 to |cpus|
        invariant Found(queues, e, i, target, minLoad)
      {
        TotalWithOneMore(queues, i, []);
        FoundNext(queues, e, i, target, minLoad);
        assert i in e <==> cpus[i].online && !(smtAware && cpus[i].isSmt);
        if cpus[i].online && !(smtAware && cpus[i].isSmt) {
          assert QueueLinked(i);
          var load := Load(cpus[i].runQueue, queues[i]);
          if load < minLoad {
            minLoad, target := load, i;
          }
        }
      }
      assert forall i | 0 <= i < |cpus| :: i in e <==> cpus[i].online && (smtAware ==> !cpus[i].isSmt);
    }

    /** Puts a new task in front of its queue. */
    method Link(t: Task, k: nat)
      requires Shape() && AllLinked() && |tasks| < MAX_TASKS && k < |cpus|
      requires t !in tasks && t !in idle && t.next == cpus[k].runQueue
      modifies this`tasks, this`queues, {cpus[k]}`runQueue
      ensures tasks == old(tasks) + [t] && queues == old(queues)[k := [t] + old(queues)[k]]
      ensures Shape() && AllLinked()
    {
      ghost var q := [t] + queues[k];
      assert QueueLinked(k);
      LinkHead(t, cpus[k].runQueue, queues[k]);
      TotalWithOneMore(queues, k, q);
      cpus[k].runQueue := t;
      tasks, queues := tasks + [t], queues[k := q];
      assert forall i | 0 <= i < |q| :: q[i] in tasks;
      forall i | 0 <= i < |cpus| && i != k
        ensures QueueLinked(i)
      {
        assert old(QueueLinked(i)) && queues[i] == old(queues)[i];
      }
    }

    method Push(t: Task, k: nat)
      requires Shape() && Queued() && |tasks| < MAX_TASKS && k < |cpus|
      requires t !in tasks && t !in idle && t.cpuId == k && t.next == cpus[k].runQueue
      modifies this`tasks, this`queues, {cpus[k]}`runQueue
      ensures tasks == old(tasks) + [t] && queues == old(queues)[k := [t] + old(queues)[k]]
      ensures Shape() && Queued()
    {
      PushKeepsHomes(tasks, queues, t);
      Link(t, k);
    }

    /** Moves the head of CPU 0's queue to its back. */
    method RotateFirst()
      requires Shape() && Queued() && queues[0] != []
      modifies this`queues, cpus[..1]`runQueue, tasks`next
      ensures queues == old(queues)[0 := old(queues)[0][1..] + [old(queues)[0][0]]]
      ensures Shape() && Queued()
    {
      ghost var q := queues[0];
      assert QueueLinked(0);
      forall i | 1 <= i < |cpus|
        ensures forall j | 0 <= j < |queues[i]| :: queues[i][j] !in q
      {
        HomedApart(tasks, queues, i, 0);
      }
      RotateKeepsHomes(tasks, queues, 0);
      TotalWithOneMore(queues, 0, q[1..] + [q[0]]);
      cpus[0].runQueue := Rotate(cpus[0].runQueue, q);
      queues := queues[0 := q[1..] + [q[0]]];
      assert AllIn(queues[0], tasks);
      forall i | 1 <= i < |cpus|
        ensures QueueLinked(i)
      {
        assert old(QueueLinked(i)) && queues[i] == old(queues)[i];
      }
    }

    /** A new task, set up for CPU `k`, joins the scheduler. */
    method AddTask(t: Task, k: nat)
      requires Valid() && |tasks| < MAX_TASKS && k < |cpus| && t !in tasks && t !in idle
      requires t.cpuId == k && t.next == cpus[k].runQueue && t.timeSlice == SLICE && t.totalRuntime == 0
      modifies this`tasks, this`queues, this`ticks, {cpus[k]}`runQueue
      ensures Valid() && tasks == old(tasks) + [t] && ticks == old(ticks)[t := 0]
      ensures queues == old(queues)[k := [t] + old(queues)[k]]
    {
      ticks := ticks[t := 0];
      Quotient(0, SLICE, 0, 0);
      Quotient(0, WORD, 0, 0);
      Push(t, k);
    }

    method SchedCreateTask() returns (t: Task?)
      requires Valid()
      modifies this`tasks, this`queues, this`ticks, cpus`runQueue
      ensures Valid()
      ensures t == null <==> old(|tasks|) == MAX_TASKS
      ensures t == null ==> tasks == old(tasks) && queues == old(queues) && ticks == old(ticks)
      ensures t != null ==> fresh(t) && tasks == old(tasks) + [t] && t.id == |tasks| && t.ready
      ensures t != null ==> ticks == old(ticks)[t := 0]
      ensures t != null ==> IsTarget(old(queues), old(Eligible()), |cpus|, t.cpuId)
      ensures t != null ==> forall i | 0 <= i < |cpus| && cpus[i].online && (smtAware ==> !cpus[i].isSmt) ::
                cpus[t.cpuId].online && (smtAware ==> !cpus[t.cpuId].isSmt) && |old(queues)[t.cpuId]| <= |old(queues)[i]|
      ensures t != null ==> queues == old(queues)[t.cpuId := [t] + old(queues)[t.cpuId]]
    {
      if |tasks| == MAX_TASKS {
        return null;
      }
      var target := TargetCpu();
      t := new Task(|tasks| + 1, target, SLICE, cpus[target].runQueue);
      AddTask(t, target);
    }

    /** The head of CPU 0's queue becomes its current task and moves to the back. */
    method RunHead()
      requires Valid() && queues[0] != []
      modifies this`queues, this`ran, cpus[..1]`runQueue, cpus[..1]`current, tasks`next
      ensures Valid() && cpus[0].current == old(queues[0])[0] && ran == old(ran) + [old(queues[0])[0]]
      ensures queues == old(queues)[0 := old(queues)[0][1..] + [old(queues)[0][0]]]
    {
      assert QueueLinked(0);
      cpus[0].current := cpus[0].runQueue;
      ran := ran + [queues[0][0]];
      RotateFirst();
    }

    method SchedSchedule()
      requires Valid()
      modifies this`queues, this`ran, cpus[..1]`runQueue, cpus[..1]`current, tasks`next
      ensures Valid()
      ensures Turn(queues[0], ran) == Switched(old(Turn(queues[0], ran)), Ready())
      ensures queues[1..] == old(queues)[1..]
      ensures cpus[0].current == if old(queues[0]) == [] then idle[0]
                                 else if old(queues[0])[0] in Ready() then old(queues[0])[0] else old(cpus[0].current)
    {
      assert QueueLinked(0);
      var cpu := cpus[0];
      if cpu.runQueue == null {
        cpu.current := idle[0];
        return;
      }
      if cpu.runQueue.ready {
        RunHead();
      }
    }

    /** One tick of the task on one CPU. */
    method Tick(current: Task)
      requires Shape() && Ticked() && current in tasks
      modifies this`ticks, current`timeSlice, current`totalRuntime
      ensures Ticked() && ticks == old(ticks)[current := old(ticks)[current] + 1]
    {
      TickAccounts(current.timeSlice, current.totalRuntime, ticks[current]);
      current.timeSlice := current.timeSlice - 1;
      current.totalRuntime := (current.totalRuntime + 1) % WORD;
      if current.timeSlice == 0 {
        current.timeSlice := SLICE;
      }
      ticks := ticks[current := ticks[current] + 1];
    }

    method SchedTick()
      requires Valid()
      modifies this`ticks, tasks`timeSlice, tasks`totalRuntime
      ensures Valid()
      ensures forall t | t in tasks :: ticks[t] == old(ticks[t]) + if cpus[0].online && cpus[0].current == t then 1 else 0
    {
      for i := 0 to |cpus|
        invariant Ticked()
        invariant forall t | t in tasks ::
            ticks[t] == old(ticks[t]) + if 0 < i && cpus[0].online && cpus[0].current == t then 1 else 0
      {
        var current := cpus[i].current;
        if cpus[i].online && current != null && current.timeSlice > 0 {
          Tick(current);
        }
      }
    }
  }
}
