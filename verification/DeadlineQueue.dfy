/** blk.c: the deadline I/O scheduler, two linked queues with reads served before writes. */
module DeadlineQueue {
  import opened Wrappers

  class Request {
    const isRead: bool
    const deadline: nat
    var next: Request?

    constructor (isRead: bool, deadline: nat)
      ensures this.isRead == isRead && this.deadline == deadline && next == null
    {
      this.isRead, this.deadline, next := isRead, deadline, null;
    }
  }

  ghost predicate Sorted(q: seq<Request>)
  {
    forall i, j | 0 <= i < j < |q| :: q[i].deadline <= q[j].deadline
  }

  /** Where a request goes: before the first one with a later deadline. */
  function Insert(q: seq<Request>, r: Request): seq<Request>
  {
    if q == [] || r.deadline < q[0].deadline then [r] + q else [q[0]] + Insert(q[1..], r)
  }

  lemma {:induction false} InsertSkips(q: seq<Request>, r: Request, n: nat)
    requires n <= |q| && forall i | 0 <= i < n :: q[i].deadline <= r.deadline
    ensures Insert(q, r) == q[..n] + Insert(q[n..], r)
  {
    if n == 0 {
      assert q[n..] == q;
    } else {
      var x, t := q[0], q[1..];
      InsertSkips(t, r, n - 1);
      var rest := Insert(t[n - 1..], r);
      assert t[n - 1..] == q[n..] && [x] + t[..n - 1] == q[..n];
      assert Insert(q, r) == [x] + (t[..n - 1] + rest) == [x] + t[..n - 1] + rest;
    }
  }

  function One(r: Request, isRead: bool, d: nat): seq<Request>
  {
    if r.isRead == isRead && r.deadline == d then [r] else []
  }

  /** The requests of one kind with deadline `d`, in order. */
  function Class(q: seq<Request>, isRead: bool, d: nat): seq<Request>
  {
    if q == [] then [] else Class(q[..|q| - 1], isRead, d) + One(q[|q| - 1], isRead, d)
  }

  lemma SortedCons(r: Request, q: seq<Request>)
    requires Sorted(q) && forall i | 0 <= i < |q| :: r.deadline <= q[i].deadline
    ensures Sorted([r] + q)
  {
    var s := [r] + q;
    forall i, j | 0 <= i < j < |s|
      ensures s[i].deadline <= s[j].deadline
    {
      assert s[j] == q[j - 1] && (i > 0 ==> s[i] == q[i - 1]);
    }
  }

  lemma {:induction false} InsertHolds(q: seq<Request>, r: Request)
    ensures multiset(Insert(q, r)) == multiset(q) + multiset{r} && |Insert(q, r)| == |q| + 1
  {
    if q != [] && q[0].deadline <= r.deadline {
      InsertHolds(q[1..], r);
      assert q == [q[0]] + q[1..];
    }
  }

  lemma InsertMembers(q: seq<Request>, r: Request, x: Request)
    ensures x in Insert(q, r) <==> x in q || x == r
  {
    InsertHolds(q, r);
    assert x in Insert(q, r) <==> x in multiset(Insert(q, r));
    assert x in q <==> x in multiset(q);
  }

  lemma {:induction false} InsertSorts(q: seq<Request>, r: Request)
    requires Sorted(q)
    ensures Sorted(Insert(q, r))
  {
    if q != [] && q[0].deadline <= r.deadline {
      var x, t := q[0], q[1..];
      var rest := Insert(t, r);
      InsertSorts(t, r);
      forall i | 0 <= i < |rest|
        ensures x.deadline <= rest[i].deadline
      {
        InsertMembers(t, r, rest[i]);
      }
      SortedCons(x, rest);
    } else {
      SortedCons(r, q);
    }
  }

  lemma ClassSnoc(q: seq<Request>, r: Request, isRead: bool, d: nat)
    ensures Class(q + [r], isRead, d) == Class(q, isRead, d) + One(r, isRead, d)
  {
    assert (q + [r])[..|q|] == q;
  }

  lemma {:induction false} ClassCons(r: Request, q: seq<Request>, isRead: bool, d: nat)
    ensures Class([r] + q, isRead, d) == One(r, isRead, d) + Class(q, isRead, d)
  {
    if q == [] {
      assert [r] + q == [] + [r];
      ClassSnoc([], r, isRead, d);
    } else {
      var init, x := q[..|q| - 1], q[|q| - 1];
      ClassCons(r, init, isRead, d);
      ClassSnoc([r] + init, x, isRead, d);
      assert [r] + q == [r] + init + [x];
      Regroup(One(r, isRead, d), Class(init, isRead, d), One(x, isRead, d));
    }
  }

  lemma {:induction false} ClassNone(q: seq<Request>, isRead: bool, d: nat)
    requires forall i | 0 <= i < |q| :: q[i].isRead != isRead || q[i].deadline != d
    ensures Class(q, isRead, d) == []
  {
    if q != [] {
      ClassNone(q[..|q| - 1], isRead, d);
    }
  }

  lemma StableCons(x: Request, t: seq<Request>, l: seq<Request>, r: Request, isRead: bool, d: nat)
    requires Class(l, isRead, d) == Class(t, isRead, d) + One(r, isRead, d)
    ensures Class([x] + l, isRead, d) == Class([x] + t, isRead, d) + One(r, isRead, d)
  {
    ClassCons(x, l, isRead, d);
    ClassCons(x, t, isRead, d);
    Regroup(One(x, isRead, d), Class(t, isRead, d), One(r, isRead, d));
  }

  lemma LaterClassEmpty(q: seq<Request>, r: Request, isRead: bool, d: nat)
    requires Sorted(q) && (q == [] || r.deadline < q[0].deadline) && r.deadline == d
    ensures Class(q, isRead, d) == []
  {
    ClassNone(q, isRead, d);
  }

  /** Insertion is stable: a request goes behind those of its own deadline and disturbs no other class. */
  lemma {:induction false} InsertIsStable(q: seq<Request>, r: Request, isRead: bool, d: nat)
    requires Sorted(q)
    ensures Class(Insert(q, r), isRead, d) == Class(q + [r], isRead, d)
  {
    ClassSnoc(q, r, isRead, d);
    if q == [] || r.deadline < q[0].deadline {
      ClassCons(r, q, isRead, d);
      if One(r, isRead, d) != [] {
        LaterClassEmpty(q, r, isRead, d);
      }
    } else {
      var x, t := q[0], q[1..];
      InsertIsStable(t, r, isRead, d);
      ClassSnoc(t, r, isRead, d);
      assert [x] + t == q;
      StableCons(x, t, Insert(t, r), r, isRead, d);
    }
  }

  /** A stable sort is unique: order by deadline and the order within each class leave no choice. */
  lemma {:induction false} SortIsUnique(a: seq<Request>, b: seq<Request>, isRead: bool)
    requires Sorted(a) && Sorted(b)
    requires (forall r | r in a :: r.isRead == isRead) && (forall r | r in b :: r.isRead == isRead)
    requires forall d: nat :: Class(a, isRead, d) == Class(b, isRead, d)
    ensures a == b
  {
    if a == [] && b == [] {
      return;
    }
    SameLast(a, b, isRead);
    var x, m, n := a[|a| - 1], |a| - 1, |b| - 1;
    forall d: nat
      ensures Class(a[..m], isRead, d) == Class(b[..n], isRead, d)
    {
      assert a == a[..m] + [x] && b == b[..n] + [x];
      ClassSnoc(a[..m], x, isRead, d);
      ClassSnoc(b[..n], x, isRead, d);
      SameInit(Class(a[..m], isRead, d), Class(b[..n], isRead, d), One(x, isRead, d));
    }
    SortIsUnique(a[..m], b[..n], isRead);
    assert a == a[..m] + [x] && b == b[..n] + [x];
  }

  lemma SameInit(a: seq<Request>, b: seq<Request>, c: seq<Request>)
    requires a + c == b + c
    ensures a == b
  {
    assert |a| == |b| && a == (a + c)[..|a|] && b == (b + c)[..|b|];
  }

  lemma SameLast(a: seq<Request>, b: seq<Request>, isRead: bool)
    requires a != [] || b != []
    requires Sorted(a) && Sorted(b)
    requires (forall r | r in a :: r.isRead == isRead) && (forall r | r in b :: r.isRead == isRead)
    requires forall d: nat :: Class(a, isRead, d) == Class(b, isRead, d)
    ensures a != [] && b != [] && a[|a| - 1] == b[|b| - 1]
  {
    if b != [] {
      LastInClass(b, a, isRead);
    }
    LastInClass(a, b, isRead);
    LastInClass(b, a, isRead);
    var x, y := a[|a| - 1], b[|b| - 1];
    var c := Class(a, isRead, x.deadline);
    assert c[|c| - 1] == x && Class(b, isRead, x.deadline)[|c| - 1] == y;
  }

  lemma LastInClass(a: seq<Request>, b: seq<Request>, isRead: bool)
    requires Sorted(b) && forall r | r in a :: r.isRead == isRead
    requires forall d: nat :: Class(a, isRead, d) == Class(b, isRead, d)
    ensures a != [] ==> a[|a| - 1] in b && b != [] && a[|a| - 1].deadline <= b[|b| - 1].deadline
  {
    if a != [] {
      var x := a[|a| - 1];
      var c := Class(a, isRead, x.deadline);
      assert c[|c| - 1] == x;
      ClassWithin(b, isRead, x.deadline);
    }
  }

  lemma {:induction false} ClassWithin(q: seq<Request>, isRead: bool, d: nat)
    ensures forall r | r in Class(q, isRead, d) :: r in q && r.deadline == d
  {
    if q != [] {
      ClassWithin(q[..|q| - 1], isRead, d);
    }
  }

  /** Both queues and the history. */
  datatype Queues = Queues(toRead: seq<Request>, toWrite: seq<Request>, submitted: seq<Request>, dispatched: seq<Request>)

  datatype Op = Submit(r: Request) | Dispatch

  function After(s: Queues, op: Op): Queues
  {
    match op
    case Submit(r) =>
      if r.isRead then s.(toRead := Insert(s.toRead, r), submitted := s.submitted + [r])
      else s.(toWrite := Insert(s.toWrite, r), submitted := s.submitted + [r])
    case Dispatch =>
      if s.toRead != [] then s.(toRead := s.toRead[1..], dispatched := s.dispatched + [s.toRead[0]])
      else if s.toWrite != [] then s.(toWrite := s.toWrite[1..], dispatched := s.dispatched + [s.toWrite[0]])
      else s
  }

  function AfterAll(s: Queues, ops: seq<Op>): Queues
  {
    if ops == [] then s else After(AfterAll(s, ops[..|ops| - 1]), ops[|ops| - 1])
  }

  const NOTHING: Queues := Queues([], [], [], [])

  function Pending(s: Queues, isRead: bool): seq<Request>
  {
    if isRead then s.toRead else s.toWrite
  }

  /** In each kind and deadline, what was dispatched and then what is pending is what was submitted, in that order. */
  ghost predicate InOrder(s: Queues, isRead: bool, d: nat)
  {
    Class(s.dispatched, isRead, d) + Class(Pending(s, isRead), isRead, d) == Class(s.submitted, isRead, d)
  }

  /** A queue: sorted requests of one kind. */
  ghost predicate IsQueue(q: seq<Request>, isRead: bool)
  {
    Sorted(q) && forall r | r in q :: r.isRead == isRead
  }

  ghost predicate Conserved(s: Queues)
  {
    multiset(s.dispatched) + multiset(s.toRead) + multiset(s.toWrite) == multiset(s.submitted)
  }

  ghost predicate Ordered(s: Queues)
  {
    && IsQueue(s.toRead, true) && IsQueue(s.toWrite, false) && Conserved(s)
    && forall isRead: bool, d: nat :: InOrder(s, isRead, d)
  }

  lemma InsertIsQueue(q: seq<Request>, r: Request)
    requires IsQueue(q, r.isRead)
    ensures IsQueue(Insert(q, r), r.isRead)
  {
    InsertSorts(q, r);
    forall x | x in Insert(q, r)
      ensures x.isRead == r.isRead
    {
      InsertMembers(q, r, x);
    }
  }

  lemma SubmitConserves(s: Queues, r: Request)
    requires Ordered(s)
    ensures Conserved(After(s, Submit(r)))
  {
    InsertHolds(Pending(s, r.isRead), r);
  }

  lemma RestIsQueue(q: seq<Request>, isRead: bool)
    requires q != [] && IsQueue(q, isRead)
    ensures IsQueue(q[1..], isRead) && multiset(q) == multiset{q[0]} + multiset(q[1..])
  {
    var t := q[1..];
    assert q == [q[0]] + t;
    forall i, j | 0 <= i < j < |t|
      ensures t[i].deadline <= t[j].deadline
    {
      assert t[i] == q[i + 1] && t[j] == q[j + 1];
    }
  }

  lemma TailMoves(s: Queues, t: Queues, q: seq<Request>, r: Request, isRead: bool, d: nat)
    requires InOrder(s, isRead, d) && q == Pending(s, r.isRead) && Sorted(q)
    requires t.dispatched == s.dispatched && t.submitted == s.submitted + [r]
    requires Pending(t, r.isRead) == Insert(q, r) && Pending(t, !r.isRead) == Pending(s, !r.isRead)
    ensures InOrder(t, isRead, d)
  {
    ClassSnoc(s.submitted, r, isRead, d);
    if isRead == r.isRead {
      InsertIsStable(q, r, isRead, d);
      ClassSnoc(q, r, isRead, d);
      Regroup(Class(s.dispatched, isRead, d), Class(q, isRead, d), One(r, isRead, d));
    }
  }

  lemma SubmitKeepsOrder(s: Queues, r: Request)
    requires Ordered(s)
    ensures Ordered(After(s, Submit(r)))
  {
    var t, q := After(s, Submit(r)), Pending(s, r.isRead);
    InsertIsQueue(q, r);
    SubmitConserves(s, r);
    forall isRead: bool, d: nat
      ensures InOrder(t, isRead, d)
    {
      TailMoves(s, t, q, r, isRead, d);
    }
  }

  lemma HeadCrosses(done: seq<Request>, q: seq<Request>, isRead: bool, d: nat)
    requires q != []
    ensures Class(done + [q[0]], isRead, d) + Class(q[1..], isRead, d) == Class(done, isRead, d) + Class(q, isRead, d)
  {
    var r, rest := q[0], q[1..];
    ClassSnoc(done, r, isRead, d);
    ClassCons(r, rest, isRead, d);
    assert q == [r] + rest;
    Regroup(Class(done, isRead, d), One(r, isRead, d), Class(rest, isRead, d));
  }

  lemma HeadMoves(s: Queues, t: Queues, q: seq<Request>, kind: bool, isRead: bool, d: nat)
    requires InOrder(s, isRead, d) && q == Pending(s, kind) && q != [] && q[0].isRead == kind
    requires t.submitted == s.submitted && t.dispatched == s.dispatched + [q[0]]
    requires Pending(t, kind) == q[1..] && Pending(t, !kind) == Pending(s, !kind)
    ensures InOrder(t, isRead, d)
  {
    if isRead == kind {
      HeadCrosses(s.dispatched, q, isRead, d);
    } else {
      ClassSnoc(s.dispatched, q[0], isRead, d);
    }
  }

  lemma DispatchKeepsOrder(s: Queues)
    requires Ordered(s)
    ensures Ordered(After(s, Dispatch))
  {
    var t := After(s, Dispatch);
    if s.toRead == [] && s.toWrite == [] {
      return;
    }
    var kind := s.toRead != [];
    var q := Pending(s, kind);
    var r := q[0];
    RestIsQueue(q, kind);
    assert Conserved(t);
    forall isRead: bool, d: nat
      ensures InOrder(t, isRead, d)
    {
      HeadMoves(s, t, q, kind, isRead, d);
    }
  }

  /** Any interleaving of submits and dispatches keeps the order and loses nothing. */
  lemma {:induction false} RunKeepsOrder(ops: seq<Op>)
    ensures Ordered(AfterAll(NOTHING, ops))
  {
    if ops == [] {
      forall isRead: bool, d: nat
        ensures InOrder(NOTHING, isRead, d)
      {
      }
    } else {
      var s := AfterAll(NOTHING, ops[..|ops| - 1]);
      RunKeepsOrder(ops[..|ops| - 1]);
      match ops[|ops| - 1]
      case Submit(r) => SubmitKeepsOrder(s, r);
      case Dispatch => DispatchKeepsOrder(s);
    }
  }

  /** A dispatch serves a write only when no read waits, the earliest deadline of its kind, the first submitted of that deadline. */
  lemma DispatchIsEarliest(s: Queues) returns (r: Request)
    requires Ordered(s) && (s.toRead != [] || s.toWrite != [])
    ensures After(s, Dispatch).dispatched == s.dispatched + [r]
    ensures r in Pending(s, r.isRead) && (r.isRead <==> s.toRead != [])
    ensures forall x | x in Pending(s, r.isRead) :: r.deadline <= x.deadline
    ensures var before, all := Class(s.dispatched, r.isRead, r.deadline), Class(s.submitted, r.isRead, r.deadline);
            |before| < |all| && all[..|before|] == before && all[|before|] == r
  {
    var kind := s.toRead != [];
    var q := Pending(s, kind);
    r := q[0];
    var rest := q[1..];
    assert q == [r] + rest;
    assert InOrder(s, kind, r.deadline);
    ClassCons(r, rest, kind, r.deadline);
    FirstBehind(Class(s.dispatched, kind, r.deadline), r, Class(rest, kind, r.deadline),
                Class(s.submitted, kind, r.deadline));
  }

  lemma FirstBehind(before: seq<Request>, r: Request, rest: seq<Request>, all: seq<Request>)
    requires all == before + ([r] + rest)
    ensures |before| < |all| && all[..|before|] == before && all[|before|] == r
  {
  }

  function Submits(rs: seq<Request>): seq<Op>
  {
    if rs == [] then [] else Submits(rs[..|rs| - 1]) + [Submit(rs[|rs| - 1])]
  }

  function Drain(n: nat): seq<Op>
  {
    if n == 0 then [] else Drain(n - 1) + [Dispatch]
  }

  /** Everything submitted is pending. */
  ghost predicate AllPending(s: Queues, rs: seq<Request>)
  {
    s.submitted == rs && s.dispatched == [] && |s.toRead| + |s.toWrite| == |rs|
  }

  lemma SubmitStep(s: Queues, rs: seq<Request>, r: Request)
    requires AllPending(s, rs)
    ensures AllPending(After(s, Submit(r)), rs + [r])
  {
    InsertHolds(Pending(s, r.isRead), r);
  }

  lemma {:induction false} SubmitsQueue(rs: seq<Request>)
    ensures AllPending(AfterAll(NOTHING, Submits(rs)), rs)
  {
    if rs != [] {
      var init, r := rs[..|rs| - 1], rs[|rs| - 1];
      SubmitsQueue(init);
      SubmitStep(AfterAll(NOTHING, Submits(init)), init, r);
      AfterSnoc(NOTHING, Submits(init), Submit(r));
      assert rs == init + [r];
    }
  }

  lemma AfterSnoc(s: Queues, ops: seq<Op>, op: Op)
    ensures AfterAll(s, ops + [op]) == After(AfterAll(s, ops), op)
  {
    assert (ops + [op])[..|ops|] == ops;
  }

  function Line(s: Queues): seq<Request>
  {
    s.dispatched + s.toRead + s.toWrite
  }

  lemma DispatchKeepsLine(s: Queues)
    ensures Line(After(s, Dispatch)) == Line(s)
    ensures |After(s, Dispatch).dispatched| == if |s.dispatched| < |Line(s)| then |s.dispatched| + 1 else |s.dispatched|
  {
    if s.toRead != [] {
      assert s.toRead == [s.toRead[0]] + s.toRead[1..];
    } else if s.toWrite != [] {
      assert s.toWrite == [s.toWrite[0]] + s.toWrite[1..];
    }
  }

  /** `n` dispatches after `s`: so much of its line has left. */
  ghost predicate Drained(t: Queues, s: Queues, n: nat)
  {
    && t.submitted == s.submitted && Line(t) == Line(s)
    && |t.dispatched| == if n <= |Line(s)| then n else |Line(s)|
  }

  lemma DrainStep(t: Queues, s: Queues, n: nat)
    requires Drained(t, s, n)
    ensures Drained(After(t, Dispatch), s, n + 1)
  {
    DispatchKeepsLine(t);
  }

  lemma {:induction false} DrainEmpties(ops: seq<Op>, n: nat)
    requires AfterAll(NOTHING, ops).dispatched == []
    ensures Drained(AfterAll(NOTHING, ops + Drain(n)), AfterAll(NOTHING, ops), n)
  {
    var s := AfterAll(NOTHING, ops);
    if n == 0 {
      assert ops + Drain(0) == ops;
    } else {
      var before := ops + Drain(n - 1);
      DrainEmpties(ops, n - 1);
      DrainStep(AfterAll(NOTHING, before), s, n - 1);
      AfterSnoc(NOTHING, before, Dispatch);
      assert ops + Drain(n) == before + [Dispatch];
    }
  }

  /** Submitting everything and draining sorts each kind stably: reads first, and each class keeps its order. */
  lemma DrainedIsStableSort(rs: seq<Request>, n: nat) returns (k: nat)
    requires |rs| <= n
    ensures var out := AfterAll(NOTHING, Submits(rs) + Drain(n)).dispatched;
            && k <= |out| && multiset(out) == multiset(rs)
            && Sorted(out[..k]) && Sorted(out[k..])
            && (forall i | 0 <= i < |out| :: out[i].isRead <==> i < k)
            && forall isRead: bool, d: nat :: Class(out, isRead, d) == Class(rs, isRead, d)
  {
    var ops := Submits(rs);
    var s, t := AfterAll(NOTHING, ops), AfterAll(NOTHING, ops + Drain(n));
    SubmitsQueue(rs);
    DrainEmpties(ops, n);
    RunKeepsOrder(ops);
    RunKeepsOrder(ops + Drain(n));
    var out := t.dispatched;
    assert t.toRead == [] && t.toWrite == [] && out == Line(s);
    k := |s.toRead|;
    assert out[..k] == s.toRead && out[k..] == s.toWrite;
    forall isRead: bool, d: nat
      ensures Class(out, isRead, d) == Class(rs, isRead, d)
    {
      assert InOrder(t, isRead, d);
    }
  }

  function At(q: seq<Request>, i: nat): Request?
  {
    if i < |q| then q[i] else null
  }

  /** The requests are linked through `next` in this order. */
  ghost predicate Linked(head: Request?, q: seq<Request>)
    reads q
  {
    && (forall i, j | 0 <= i < j < |q| :: q[i] != q[j])
    && head == At(q, 0)
    && forall i {:trigger q[i].next} | 0 <= i < |q| :: q[i].next == At(q, i + 1)
  }

  lemma UnlinkHead(head: Request?, q: seq<Request>)
    requires Linked(head, q) && q != []
    ensures head == q[0] && Linked(q[0].next, q[1..])
  {
    var t := q[1..];
    assert q[0].next == At(q, 1) == At(t, 0);
    forall i | 0 <= i < |t|
      ensures t[i].next == At(t, i + 1)
    {
      assert t[i] == q[i + 1] && At(t, i + 1) == At(q, i + 2);
    }
  }

  lemma Apart(a: seq<Request>, b: seq<Request>, isRead: bool)
    requires IsQueue(a, isRead) && IsQueue(b, !isRead)
    ensures forall i | 0 <= i < |a| :: a[i] !in b
  {
    forall i | 0 <= i < |a|
      ensures a[i] !in b
    {
      assert a[i].isRead == isRead;
    }
  }

  class Scheduler {
    var readQueue: Request?
    var writeQueue: Request?
    const present: bool
    ghost var state: Queues

    ghost predicate Valid()
      reads this, state.toRead, state.toWrite
    {
      && Linked(readQueue, state.toRead) && Linked(writeQueue, state.toWrite)
      && IsQueue(state.toRead, true) && IsQueue(state.toWrite, false)
    }

    constructor (present: bool)
      ensures Valid() && state == NOTHING && this.present == present
    {
      this.present, readQueue, writeQueue, state := present, null, null, NOTHING;
    }

    /** Links the request into one queue by deadline, behind its equals. */
    static method Splice(head: Request?, ghost q: seq<Request>, req: Request) returns (first: Request)
      requires Linked(head, q) && req !in q
      modifies q, req
      ensures Linked(first, Insert(q, req))
    {
      if head == null || req.deadline < head.deadline {
        assert Insert(q, req) == [req] + q;
        req.next := head;
        return req;
      }
      var curr: Request := head;
      ghost var i := 0;
      while curr.next != null && curr.next.deadline <= req.deadline
        invariant 0 <= i < |q| && curr == q[i] && Linked(head, q)
        invariant curr.next == At(q, i + 1)
        invariant forall j | 0 <= j <= i :: q[j].deadline <= req.deadline
        decreases |q| - i
      {
        curr := curr.next;
        i := i + 1;
      }
      InsertSkips(q, req, i + 1);
      assert Insert(q, req) == q[..i + 1] + ([req] + q[i + 1..]);
      LinkBehind(head, q, req, curr, i);
      first := head;
    }

    static method LinkBehind(head: Request?, ghost q: seq<Request>, req: Request, curr: Request, ghost i: nat)
      requires Linked(head, q) && req !in q && i < |q| && curr == q[i]
      modifies q, req
      ensures Linked(head, q[..i + 1] + ([req] + q[i + 1..]))
    {
      ghost var l := q[..i + 1] + ([req] + q[i + 1..]);
      assert curr.next == At(q, i + 1);
      req.next := curr.next;
      curr.next := req;
      forall k | 0 <= k < |l|
        ensures l[k].next == At(l, k + 1)
      {
        if k > i + 1 {
          assert l[k] == q[k - 1] && old(q[k - 1].next) == At(q, k);
        } else if k < i {
          assert l[k] == q[k] && old(q[k].next) == At(q, k + 1);
        }
      }
    }

    method MqDeadlineAdd(req: Request)
      requires Valid() && req !in state.toRead && req !in state.toWrite
      modifies this, state.toRead, state.toWrite, req
      ensures Valid() && state == After(old(state), Submit(req))
    {
      if req.isRead {
        InsertIsQueue(state.toRead, req);
        Apart(state.toWrite, state.toRead, false);
        readQueue := Splice(readQueue, state.toRead, req);
        assert forall i {:trigger state.toWrite[i].next} | 0 <= i < |state.toWrite| ::
            state.toWrite[i].next == old(state.toWrite[i].next);
      } else {
        InsertIsQueue(state.toWrite, req);
        Apart(state.toRead, state.toWrite, true);
        writeQueue := Splice(writeQueue, state.toWrite, req);
        assert forall i {:trigger state.toRead[i].next} | 0 <= i < |state.toRead| ::
            state.toRead[i].next == old(state.toRead[i].next);
      }
      state := After(state, Submit(req));
    }

    method MqDeadlineGetNext() returns (req: Request?)
      requires Valid()
      modifies this
      ensures Valid() && state == After(old(state), Dispatch)
      ensures req == null <==> old(state.toRead) == [] && old(state.toWrite) == []
      ensures req != null ==> state.dispatched == old(state.dispatched) + [req]
    {
      req := null;
      if readQueue != null {
        UnlinkHead(readQueue, state.toRead);
        RestIsQueue(state.toRead, true);
        req := readQueue;
        readQueue := readQueue.next;
      } else if writeQueue != null {
        UnlinkHead(writeQueue, state.toWrite);
        RestIsQueue(state.toWrite, false);
        req := writeQueue;
        writeQueue := writeQueue.next;
      }
      state := After(state, Dispatch);
    }

    /** Without a scheduler a request is dropped. */
    method BlkSubmitRequest(req: Request)
      requires Valid() && req !in state.toRead && req !in state.toWrite
      modifies this, state.toRead, state.toWrite, req
      ensures Valid() && state == if present then After(old(state), Submit(req)) else old(state)
    {
      if present {
        MqDeadlineAdd(req);
      }
    }

    method BlkDispatch() returns (req: Request?)
      requires Valid()
      modifies this
      ensures Valid() && state == if present then After(old(state), Dispatch) else old(state)
      ensures req != null <==> present && (old(state.toRead) != [] || old(state.toWrite) != [])
      ensures req != null ==> state.dispatched == old(state.dispatched) + [req]
    {
      req := null;
      if present {
        req := MqDeadlineGetNext();
      }
    }
  }
}
