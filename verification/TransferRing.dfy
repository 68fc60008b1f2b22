/** xhci.c: the EP1 transfer ring, whose last entry is a Link TRB (xHCI specification, section 4.9.2). */
module TransferRing {
  import opened EventRing

  const EP_RING_SIZE: nat := 32
  const USABLE: nat := 31
  const TRB_TYPE_NORMAL: nat := 1
  const TRB_TYPE_LINK: nat := 6

  /** Bits 10 to 15 of the control word. */
  function TypeOf(t: Trb): nat
  {
    t.control / 1024 % 64
  }

  /** Bit 1 of a Link TRB makes the controller toggle its cycle state. */
  predicate TogglesCycle(t: Trb)
  {
    t.control / 2 % 2 == 1
  }

  function Flip(cycle: nat): nat
  {
    if cycle == 0 then 1 else 0
  }

  /** A request for one keyboard report, interrupting on completion. */
  function NormalTrb(buffer: nat, cycle: nat): Trb
  {
    Trb(buffer, 8, TRB_TYPE_NORMAL * 1024 + 32 + cycle)
  }

  function LinkTrb(cycle: nat): Trb
  {
    Trb(0, 0, TRB_TYPE_LINK * 1024 + 2 + cycle)
  }

  /** The cycle bit of transfer number `n`: passes are 31 transfers long. */
  function PassCycle(n: nat): nat
  {
    1 - n / USABLE % 2
  }

  /** The ring, the driver's enqueue index and cycle, the controller's position and cycle; and the history. */
  datatype Ring = Ring(slots: seq<Trb>, enqueue: nat, cycle: nat, position: nat, consumerCycle: nat,
                       queued: seq<Trb>, fetched: seq<Trb>)

  datatype Move = Queue(buffer: nat) | Fetch | FollowLink

  function Empty(): Ring
  {
    Ring(seq(EP_RING_SIZE, _ => ZERO), 0, 1, 0, 1, [], [])
  }

  function Outstanding(r: Ring): int
  {
    |r.queued| - |r.fetched|
  }

  /** xhci_queue_kbd_transfer: write the TRB; in the last usable slot also rewrite the Link and start over. */
  function AfterQueue(r: Ring, buffer: nat): Ring
    requires |r.slots| == EP_RING_SIZE && r.enqueue < USABLE
  {
    var t := NormalTrb(buffer, r.cycle);
    var slots := r.slots[r.enqueue := t];
    if r.enqueue + 1 >= USABLE then
      r.(slots := slots[USABLE := LinkTrb(r.cycle)], enqueue := 0, cycle := Flip(r.cycle), queued := r.queued + [t])
    else
      r.(slots := slots, enqueue := r.enqueue + 1, queued := r.queued + [t])
  }

  /** The controller owns the TRB at its position when the cycle bits agree. */
  predicate Owned(r: Ring)
  {
    r.position < |r.slots| && CycleBit(r.slots[r.position]) == r.consumerCycle
  }

  predicate CanFetch(r: Ring)
  {
    Owned(r) && TypeOf(r.slots[r.position]) != TRB_TYPE_LINK
  }

  predicate CanFollow(r: Ring)
  {
    Owned(r) && TypeOf(r.slots[r.position]) == TRB_TYPE_LINK
  }

  function AfterFetch(r: Ring): Ring
    requires CanFetch(r)
  {
    r.(position := r.position + 1, fetched := r.fetched + [r.slots[r.position]])
  }

  function AfterFollow(r: Ring): Ring
    requires CanFollow(r)
  {
    r.(position := 0, consumerCycle := if TogglesCycle(r.slots[r.position]) then Flip(r.consumerCycle) else r.consumerCycle)
  }

  predicate Possible(r: Ring, m: Move, limit: int)
  {
    match m
    case Queue(_) => |r.slots| == EP_RING_SIZE && r.enqueue < USABLE && Outstanding(r) < limit
    case Fetch => CanFetch(r)
    case FollowLink => CanFollow(r)
  }

  function After(r: Ring, m: Move, limit: int): Ring
    requires Possible(r, m, limit)
  {
    match m
    case Queue(buffer) => AfterQueue(r, buffer)
    case Fetch => AfterFetch(r)
    case FollowLink => AfterFollow(r)
  }

  /** Transfer `j` is still in its slot. */
  ghost predicate InSlot(r: Ring, j: nat)
    requires |r.slots| == EP_RING_SIZE && j < |r.queued|
  {
    && r.slots[j % USABLE] == r.queued[j] && CycleBit(r.queued[j]) == PassCycle(j)
    && TypeOf(r.queued[j]) == TRB_TYPE_NORMAL
  }

  /** The controller stands before transfer `n`: in its slot, or still on the Link in front of it. */
  ghost predicate StandsBefore(r: Ring, n: nat)
  {
    || (r.position == n % USABLE && r.consumerCycle == PassCycle(n))
    || (n > 0 && n % USABLE == 0 && r.position == USABLE && r.consumerCycle == Flip(PassCycle(n)))
  }

  ghost predicate RingInv(r: Ring)
  {
    var n, q := |r.fetched|, |r.queued|;
    && |r.slots| == EP_RING_SIZE && n <= q <= n + USABLE && r.fetched == r.queued[..n]
    && r.enqueue == q % USABLE && r.cycle == PassCycle(q) && StandsBefore(r, n)
    && (forall j: nat | q - USABLE <= j < q :: InSlot(r, j))
    && (forall i: nat | q <= i < USABLE :: r.slots[i] == ZERO)
    && r.slots[USABLE] == if q < USABLE then ZERO else LinkTrb(Flip(PassCycle(q)))
  }

  /** All 31 transfers are outstanding and the controller has not left the Link: the Link, rewritten with
      the next pass, no longer carries the cycle the controller waits for. */
  predicate Stuck(r: Ring)
  {
    r.position == USABLE && Outstanding(r) == USABLE
  }

  lemma PassStep(n: nat)
    ensures PassCycle(n + USABLE) == Flip(PassCycle(n))
    ensures (n + 1) % USABLE == if n % USABLE == USABLE - 1 then 0 else n % USABLE + 1
    ensures PassCycle(n + 1) == if n % USABLE == USABLE - 1 then Flip(PassCycle(n)) else PassCycle(n)
  {
  }

  lemma SlotApart(j: nat, n: nat)
    requires j < n < j + USABLE
    ensures j % USABLE != n % USABLE
  {
  }

  /** The controller can move exactly when a transfer is pending or it stands on the Link, except when stuck. */
  lemma ControllerMoves(r: Ring)
    requires RingInv(r)
    ensures CanFetch(r) <==> r.position < USABLE && Outstanding(r) > 0
    ensures CanFetch(r) ==> r.slots[r.position] == r.queued[|r.fetched|]
    ensures CanFollow(r) <==> r.position == USABLE && !Stuck(r)
  {
    if r.position < USABLE {
      if Outstanding(r) > 0 {
        PendingIsFetched(r);
      } else {
        DrainedIsWaiting(r);
      }
    } else {
      LinkIsFollowed(r);
    }
  }

  lemma LinkIsFollowed(r: Ring)
    requires RingInv(r) && r.position == USABLE
    ensures !CanFetch(r) && (CanFollow(r) <==> !Stuck(r))
  {
    LinkCycle(|r.fetched|, |r.queued|);
    LinkFields(Flip(PassCycle(|r.queued|)));
  }

  lemma LinkFields(cycle: nat)
    requires cycle < 2
    ensures TypeOf(LinkTrb(cycle)) == TRB_TYPE_LINK && CycleBit(LinkTrb(cycle)) == cycle && TogglesCycle(LinkTrb(cycle))
  {
  }

  lemma PendingIsFetched(r: Ring)
    requires RingInv(r) && r.position < USABLE && |r.fetched| < |r.queued|
    ensures CanFetch(r) && !CanFollow(r) && r.slots[r.position] == r.queued[|r.fetched|]
  {
    assert InSlot(r, |r.fetched|);
  }

  lemma DrainedIsWaiting(r: Ring)
    requires RingInv(r) && r.position < USABLE && |r.fetched| == |r.queued|
    ensures !CanFetch(r) && !CanFollow(r)
  {
    var n := |r.fetched|;
    if n >= USABLE {
      assert InSlot(r, n - USABLE);
      PassStep(n - USABLE);
    }
  }

  lemma LinkCycle(n: nat, q: nat)
    requires n > 0 && n % USABLE == 0 && n <= q <= n + USABLE
    ensures q >= USABLE
    ensures PassCycle(q) == PassCycle(n) <==> q < n + USABLE
  {
    if q == n + USABLE {
      PassStep(n);
    }
  }

  lemma QueueKeepsInv(r: Ring, buffer: nat)
    requires RingInv(r) && Outstanding(r) < USABLE
    ensures RingInv(AfterQueue(r, buffer))
  {
    var r', q := AfterQueue(r, buffer), |r.queued|;
    PassStep(q);
    forall j: nat | q + 1 - USABLE <= j < q + 1
      ensures InSlot(r', j)
    {
      if j < q {
        assert InSlot(r, j);
        SlotApart(j, q);
      }
    }
  }

  lemma FetchKeepsInv(r: Ring)
    requires RingInv(r) && CanFetch(r)
    ensures RingInv(AfterFetch(r))
  {
    ControllerMoves(r);
    PassStep(|r.fetched|);
    forall j: nat | |r.queued| - USABLE <= j < |r.queued|
      ensures InSlot(AfterFetch(r), j)
    {
      assert InSlot(r, j);
    }
  }

  lemma FollowKeepsInv(r: Ring)
    requires RingInv(r) && CanFollow(r)
    ensures RingInv(AfterFollow(r))
  {
    ControllerMoves(r);
    forall j: nat | |r.queued| - USABLE <= j < |r.queued|
      ensures InSlot(AfterFollow(r), j)
    {
      assert InSlot(r, j);
    }
  }

  /** Any interleaving of the driver and the controller, with at most `limit` transfers outstanding. */
  ghost predicate RingRun(states: seq<Ring>, moves: seq<Move>, limit: int)
  {
    && |states| == |moves| + 1 && states[0] == Empty()
    && forall i | 0 <= i < |moves| :: Possible(states[i], moves[i], limit) && states[i + 1] == After(states[i], moves[i], limit)
  }

  lemma {:induction false} RunKeepsRing(states: seq<Ring>, moves: seq<Move>, limit: int, k: nat)
    requires RingRun(states, moves, limit) && 0 <= limit <= USABLE && k <= |moves|
    ensures RingInv(states[k]) && Outstanding(states[k]) <= limit
  {
    if k > 0 {
      RunKeepsRing(states, moves, limit, k - 1);
      var r := states[k - 1];
      match moves[k - 1]
      case Queue(buffer) => QueueKeepsInv(r, buffer);
      case Fetch => ControllerMoves(r); FetchKeepsInv(r);
      case FollowLink => FollowKeepsInv(r);
    }
  }

  /** In every state of every run the controller has fetched a prefix of what was queued, in order, and every
      pending transfer is still in its slot. It stops with a transfer pending only in the stuck state, which
      needs 31 outstanding transfers: below that it stops exactly when nothing is pending. */
  lemma FetchesInOrder(states: seq<Ring>, moves: seq<Move>, limit: int, k: nat)
    requires RingRun(states, moves, limit) && 0 <= limit <= USABLE && k <= |moves|
    ensures var r := states[k];
            && r.fetched <= r.queued && |r.slots| == EP_RING_SIZE
            && (forall j: nat | |r.fetched| <= j < |r.queued| :: r.slots[j % USABLE] == r.queued[j])
            && (!CanFetch(r) && !CanFollow(r) && Outstanding(r) > 0 <==> Stuck(r))
            && (limit < USABLE ==> !Stuck(r))
  {
    RunKeepsRing(states, moves, limit, k);
    ControllerMoves(states[k]);
    forall j: nat | |states[k].fetched| <= j < |states[k].queued|
      ensures states[k].slots[j % USABLE] == states[k].queued[j]
    {
      assert InSlot(states[k], j);
    }
  }

  /** A request for a keyboard report: type 1 in bits 10 to 15, the interrupt-on-completion bit 5 and the cycle bit. */
  lemma RequestControl(buffer: nat, cycle: nat)
    requires cycle < 2
    ensures NormalTrb(buffer, cycle).parameter == buffer && NormalTrb(buffer, cycle).status == 8
    ensures NormalTrb(buffer, cycle).control == ((1 as bv32 << 10) | (1 as bv32 << 5)) as nat + cycle
  {
  }

  /** The buffers that were queued, in order. */
  function Buffers(moves: seq<Move>): seq<nat>
  {
    if moves == [] then [] else
      Buffers(moves[..|moves| - 1]) + if moves[|moves| - 1].Queue? then [moves[|moves| - 1].buffer] else []
  }

  /** In every state of every run, transfer `j` asks for eight bytes in the `j`-th buffer and for an interrupt. */
  lemma {:induction false} QueuedRequests(states: seq<Ring>, moves: seq<Move>, limit: int, k: nat)
    requires RingRun(states, moves, limit) && k <= |moves|
    ensures states[k].cycle < 2 && |states[k].queued| == |Buffers(moves[..k])|
    ensures forall j: nat | j < |states[k].queued| ::
              var t := states[k].queued[j]; t.parameter == Buffers(moves[..k])[j] && t.status == 8 && t.control / 2 == 0x210
  {
    if k > 0 {
      QueuedRequests(states, moves, limit, k - 1);
      assert moves[..k][..k - 1] == moves[..k - 1] && moves[..k][k - 1] == moves[k - 1];
      assert states[k] == After(states[k - 1], moves[k - 1], limit);
      var cycle := states[k - 1].cycle;
      assert (0x420 + cycle) / 2 == 0x210;
    }
  }

  /** Once stuck, always stuck: neither side can move within the limit of 31. */
  lemma StuckForGood(r: Ring, m: Move)
    requires RingInv(r) && Stuck(r)
    ensures !Possible(r, m, USABLE)
  {
    ControllerMoves(r);
  }

  lemma Extended(states: seq<Ring>, moves: seq<Move>, m: Move) returns (states': seq<Ring>, moves': seq<Move>)
    requires RingRun(states, moves, USABLE) && Possible(states[|moves|], m, USABLE)
    ensures RingRun(states', moves', USABLE) && states'[|moves'|] == After(states[|moves|], m, USABLE)
  {
    states', moves' := states + [After(states[|moves|], m, USABLE)], moves + [m];
    forall i | 0 <= i < |moves'|
      ensures Possible(states'[i], moves'[i], USABLE) && states'[i + 1] == After(states'[i], moves'[i], USABLE)
    {
      if i < |moves| {
        assert states'[i] == states[i] && states'[i + 1] == states[i + 1] && moves'[i] == moves[i];
      }
    }
  }

  lemma {:induction false} QueueMany(states: seq<Ring>, moves: seq<Move>, n: nat) returns (states': seq<Ring>, moves': seq<Move>)
    requires RingRun(states, moves, USABLE) && RingInv(states[|moves|]) && Outstanding(states[|moves|]) + n <= USABLE
    ensures RingRun(states', moves', USABLE) && RingInv(states'[|moves'|])
    ensures |states'[|moves'|].queued| == |states[|moves|].queued| + n
    ensures states'[|moves'|].fetched == states[|moves|].fetched && states'[|moves'|].position == states[|moves|].position
    decreases n
  {
    states', moves' := states, moves;
    if n > 0 {
      QueueKeepsInv(states[|moves|], 0);
      states', moves' := Extended(states, moves, Queue(0));
      states', moves' := QueueMany(states', moves', n - 1);
    }
  }

  lemma {:induction false} FetchMany(states: seq<Ring>, moves: seq<Move>, n: nat) returns (states': seq<Ring>, moves': seq<Move>)
    requires RingRun(states, moves, USABLE) && RingInv(states[|moves|])
    requires states[|moves|].position + n <= USABLE && n <= Outstanding(states[|moves|])
    ensures RingRun(states', moves', USABLE) && RingInv(states'[|moves'|])
    ensures states'[|moves'|].position == states[|moves|].position + n && states'[|moves'|].queued == states[|moves|].queued
    ensures |states'[|moves'|].fetched| == |states[|moves|].fetched| + n
    decreases n
  {
    states', moves' := states, moves;
    if n > 0 {
      ControllerMoves(states[|moves|]);
      FetchKeepsInv(states[|moves|]);
      states', moves' := Extended(states, moves, Fetch);
      states', moves' := FetchMany(states', moves', n - 1);
    }
  }

  /** A run that gets stuck: queue 31, fetch 31, and queue 31 more before the Link is followed. */
  lemma StuckHappens() returns (states: seq<Ring>, moves: seq<Move>)
    ensures RingRun(states, moves, USABLE) && Stuck(states[|moves|])
  {
    states, moves := [Empty()], [];
    assert RingInv(Empty());
    states, moves := QueueMany(states, moves, USABLE);
    states, moves := FetchMany(states, moves, USABLE);
    states, moves := QueueMany(states, moves, USABLE);
  }

  lemma LooserLimit(states: seq<Ring>, moves: seq<Move>, limit: int)
    requires RingRun(states, moves, USABLE) && USABLE <= limit
    ensures RingRun(states, moves, limit)
  {
    forall i | 0 <= i < |moves|
      ensures Possible(states[i], moves[i], limit) && states[i + 1] == After(states[i], moves[i], limit)
    {
      assert Possible(states[i], moves[i], USABLE);
    }
  }

  /** The exact limit: no run gets stuck if and only if at most 30 transfers may be outstanding. */
  lemma NeverStuckIff(limit: int)
    requires 0 <= limit
    ensures (forall states, moves :: RingRun(states, moves, limit) ==> !Stuck(states[|moves|])) <==> limit <= 30
  {
    if limit < USABLE {
      forall states, moves | RingRun(states, moves, limit)
        ensures !Stuck(states[|moves|])
      {
        RunKeepsRing(states, moves, limit, |moves|);
      }
    } else {
      var states, moves := StuckHappens();
      LooserLimit(states, moves, limit);
    }
  }

  /** Queueing keeps the ring in order exactly when fewer than 31 transfers are outstanding. */
  lemma QueueKeepsInvIff(r: Ring, buffer: nat)
    requires RingInv(r)
    ensures RingInv(AfterQueue(r, buffer)) <==> Outstanding(r) < USABLE
  {
    if Outstanding(r) < USABLE {
      QueueKeepsInv(r, buffer);
    }
  }

  function Queues(moves: seq<Move>): nat
  {
    if moves == [] then 0 else Queues(moves[..|moves| - 1]) + if moves[|moves| - 1].Queue? then 1 else 0
  }

  function Fetches(moves: seq<Move>): nat
  {
    if moves == [] then 0 else Fetches(moves[..|moves| - 1]) + if moves[|moves| - 1].Fetch? then 1 else 0
  }

  /** The driver queues `m` transfers of its own accord and one more for each transfer that was fetched. */
  ghost predicate Paced(moves: seq<Move>, m: int)
  {
    forall k | 0 <= k <= |moves| :: Queues(moves[..k]) <= m + Fetches(moves[..k])
  }

  lemma {:induction false} RunCounts(states: seq<Ring>, moves: seq<Move>, limit: int, k: nat)
    requires RingRun(states, moves, limit) && k <= |moves|
    ensures |states[k].queued| == Queues(moves[..k]) && |states[k].fetched| == Fetches(moves[..k])
  {
    if k > 0 {
      RunCounts(states, moves, limit, k - 1);
      assert moves[..k][..k - 1] == moves[..k - 1] && moves[..k][k - 1] == moves[k - 1];
      assert states[k] == After(states[k - 1], moves[k - 1], limit);
    }
  }

  /** Such a driver never has more than `m` transfers outstanding, though it does not count them. */
  lemma PacedStaysWithin(states: seq<Ring>, moves: seq<Move>, limit: int, m: int)
    requires RingRun(states, moves, limit) && Paced(moves, m)
    ensures RingRun(states, moves, m)
  {
    forall i | 0 <= i < |moves|
      ensures Possible(states[i], moves[i], m) && states[i + 1] == After(states[i], moves[i], m)
    {
      assert Possible(states[i], moves[i], limit);
      if moves[i].Queue? {
        RunCounts(states, moves, limit, i);
        assert moves[..i + 1][..i] == moves[..i] && moves[..i + 1][i] == moves[i];
        assert Queues(moves[..i + 1]) <= m + Fetches(moves[..i + 1]);
      }
    }
  }

  lemma WithinIsPaced(states: seq<Ring>, moves: seq<Move>, limit: int)
    requires RingRun(states, moves, limit) && 0 <= limit <= USABLE
    ensures Paced(moves, limit)
  {
    forall k | 0 <= k <= |moves|
      ensures Queues(moves[..k]) <= limit + Fetches(moves[..k])
    {
      RunCounts(states, moves, limit, k);
      RunKeepsRing(states, moves, limit, k);
    }
  }

  /** So the driver, which queues one transfer when the endpoint is configured and one for each transfer event, is
      never stuck; and it would not be with up to 30 transfers of its own accord, but no more than that. */
  lemma PacedNeverStuckIff(m: int)
    requires 0 <= m
    ensures (forall states, moves, limit ::
               RingRun(states, moves, limit) && Paced(moves, m) ==> !Stuck(states[|moves|])) <==> m <= 30
  {
    if m < USABLE {
      forall states, moves, limit | RingRun(states, moves, limit) && Paced(moves, m)
        ensures !Stuck(states[|moves|])
      {
        PacedStaysWithin(states, moves, limit, m);
        RunKeepsRing(states, moves, m, |moves|);
      }
    } else {
      var states, moves := StuckHappens();
      WithinIsPaced(states, moves, USABLE);
    }
  }

  /** The driver's ring, written in place. */
  class KbdRing {
    const slots: array<Trb>
    var enqueue: nat
    var cycle: nat
    var configured: bool
    var slotId: nat
    ghost var position: nat
    ghost var consumerCycle: nat
    ghost var queued: seq<Trb>
    ghost var fetched: seq<Trb>

    ghost function View(): Ring
      reads this, slots
    {
      Ring(slots[..], enqueue, cycle, position, consumerCycle, queued, fetched)
    }

    ghost predicate Shape()
      reads this, slots
    {
      slots.Length == EP_RING_SIZE && enqueue < USABLE
    }

    ghost predicate Valid()
      reads this, slots
    {
      Shape() && RingInv(View())
    }

    constructor ()
      ensures Valid() && fresh(slots) && View() == Empty() && !configured && slotId == 0
    {
      slots := new Trb[EP_RING_SIZE](_ => ZERO);
      enqueue, cycle, configured, slotId := 0, 1, false, 0;
      position, consumerCycle, queued, fetched := 0, 1, [], [];
    }

    /** xhci_queue_kbd_transfer; it does nothing until the endpoint is configured. It does not count what is
        outstanding: with 31 transfers still to be fetched the ring is no longer in order. */
    method QueueTransfer(buffer: nat)
      requires Shape()
      modifies slots, this`enqueue, this`cycle, this`queued
      ensures Shape()
      ensures View() == if configured && slotId != 0 then AfterQueue(old(View()), buffer) else old(View())
      ensures old(Valid()) ==>
                (Valid() <==> old(Outstanding(View())) < USABLE || !configured || slotId == 0)
      ensures configured && slotId != 0 ==> slots[old(enqueue)].parameter == buffer && slots[old(enqueue)].status == 8
      ensures old(Valid()) && configured && slotId != 0 ==>
                TypeOf(slots[old(enqueue)]) == 1 && slots[old(enqueue)].control / 32 % 2 == 1
    {
      if !configured || slotId == 0 {
        return;
      }
      ghost var was := View();
      if RingInv(was) {
        QueueKeepsInvIff(was, buffer);
      }
      queued := queued + [NormalTrb(buffer, cycle)];
      slots[enqueue] := NormalTrb(buffer, cycle);
      enqueue := enqueue + 1;
      if enqueue >= USABLE {
        slots[USABLE] := LinkTrb(cycle);
        enqueue := 0;
        cycle := Flip(cycle);
      }
      assert View() == AfterQueue(was, buffer);
    }
  }
}
