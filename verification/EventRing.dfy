/** xhci.c: the event ring, which driver and controller share with nothing but a cycle bit between them
    (xHCI specification, section 4.9.4). */
module EventRing {

  const EVENT_RING_SIZE: nat := 32

  datatype Trb = Trb(parameter: nat, status: nat, control: nat)

  const ZERO: Trb := Trb(0, 0, 0)

  function CycleBit(t: Trb): nat
  {
    t.control % 2
  }

  function WithCycle(t: Trb, cycle: nat): (r: Trb)
    requires cycle < 2
    ensures CycleBit(r) == cycle && r.control / 2 == t.control / 2 && r.parameter == t.parameter && r.status == t.status
  {
    t.(control := t.control / 2 * 2 + cycle)
  }

  /** The cycle bit of event number `n`: 1 on the first pass over the ring, then alternating. */
  function Phase(n: nat): nat
  {
    1 - n / EVENT_RING_SIZE % 2
  }

  /** The shared ring, the driver's dequeue index and cycle state, the controller's enqueue index and cycle
      state; and the history: the events posted, those taken, and how many takes were published (ERDP). */
  datatype State = State(ring: seq<Trb>, dequeue: nat, cycleState: nat, enqueue: nat, producerCycle: nat,
                         produced: seq<Trb>, consumed: seq<Trb>, published: nat)

  datatype Action = Post(event: Trb) | Take | Publish

  /** The rings as xhci_init leaves them. */
  function Initial(): State
  {
    State(seq(EVENT_RING_SIZE, _ => ZERO), 0, 1, 0, 1, [], [], 0)
  }

  /** The driver's test for a new event. */
  predicate HasEvent(s: State)
  {
    s.dequeue < |s.ring| && CycleBit(s.ring[s.dequeue]) == s.cycleState
  }

  /** The controller posts only while the published dequeue pointer leaves room. */
  predicate HasRoom(s: State)
  {
    |s.produced| < s.published + EVENT_RING_SIZE && s.enqueue < |s.ring| && s.producerCycle < 2
  }

  function Next(index: nat): nat
  {
    (index + 1) % EVENT_RING_SIZE
  }

  function Toggled(index: nat, cycle: nat): nat
  {
    if Next(index) == 0 then (if cycle == 0 then 1 else 0) else cycle
  }

  predicate Enabled(s: State, a: Action)
  {
    match a
    case Post(_) => HasRoom(s)
    case Take => HasEvent(s)
    case Publish => true
  }

  function Step(s: State, a: Action): State
    requires Enabled(s, a)
  {
    match a
    case Post(e) =>
      var posted := WithCycle(e, s.producerCycle);
      s.(ring := s.ring[s.enqueue := posted], enqueue := Next(s.enqueue),
         producerCycle := Toggled(s.enqueue, s.producerCycle), produced := s.produced + [posted])
    case Take =>
      s.(dequeue := Next(s.dequeue), cycleState := Toggled(s.dequeue, s.cycleState),
         consumed := s.consumed + [s.ring[s.dequeue]])
    case Publish =>
      s.(published := |s.consumed|)
  }

  ghost predicate Inv(s: State)
  {
    var taken, posted := |s.consumed|, |s.produced|;
    && |s.ring| == EVENT_RING_SIZE
    && s.published <= taken <= posted <= s.published + EVENT_RING_SIZE
    && s.consumed == s.produced[..taken]
    && s.dequeue == taken % EVENT_RING_SIZE && s.cycleState == Phase(taken)
    && s.enqueue == posted % EVENT_RING_SIZE && s.producerCycle == Phase(posted)
    && (forall j: nat | posted - EVENT_RING_SIZE <= j < posted :: Holds(s, j))
    && (forall i: nat | posted <= i < EVENT_RING_SIZE :: CycleBit(s.ring[i]) == 0)
  }

  /** Event `j` is still in its slot, with the cycle bit of its pass. */
  ghost predicate Holds(s: State, j: nat)
    requires |s.ring| == EVENT_RING_SIZE && j < |s.produced|
  {
    s.ring[j % EVENT_RING_SIZE] == s.produced[j] && CycleBit(s.produced[j]) == Phase(j)
  }

  lemma NextCount(n: nat)
    ensures Next(n % EVENT_RING_SIZE) == (n + 1) % EVENT_RING_SIZE
    ensures Toggled(n % EVENT_RING_SIZE, Phase(n)) == Phase(n + 1)
    ensures Phase(n + EVENT_RING_SIZE) != Phase(n)
  {
  }

  lemma SlotsDiffer(j: nat, n: nat)
    requires j < n < j + EVENT_RING_SIZE
    ensures j % EVENT_RING_SIZE != n % EVENT_RING_SIZE
  {
  }

  lemma SamePlace(n: nat)
    ensures (n + EVENT_RING_SIZE) % EVENT_RING_SIZE == n % EVENT_RING_SIZE
    ensures n < EVENT_RING_SIZE ==> n % EVENT_RING_SIZE == n && Phase(n) == 1
  {
  }

  lemma PendingIsSeen(s: State)
    requires Inv(s) && |s.consumed| < |s.produced|
    ensures HasEvent(s) && s.ring[s.dequeue] == s.produced[|s.consumed|]
  {
    assert Holds(s, |s.consumed|);
  }

  lemma DrainedIsQuiet(s: State)
    requires Inv(s) && |s.consumed| == |s.produced|
    ensures !HasEvent(s)
  {
    var taken := |s.consumed|;
    if taken >= EVENT_RING_SIZE {
      var last := taken - EVENT_RING_SIZE;
      assert Holds(s, last);
      SamePlace(last);
      NextCount(last);
    } else {
      SamePlace(taken);
    }
  }

  /** The cycle bit at the dequeue slot matches exactly when an event is pending. */
  lemma EventIffPending(s: State)
    requires Inv(s)
    ensures HasEvent(s) <==> |s.consumed| < |s.produced|
    ensures HasEvent(s) ==> s.ring[s.dequeue] == s.produced[|s.consumed|]
  {
    if |s.consumed| < |s.produced| {
      PendingIsSeen(s);
    } else {
      DrainedIsQuiet(s);
    }
  }

  lemma StepKeepsInv(s: State, a: Action)
    requires Inv(s) && Enabled(s, a)
    ensures Inv(Step(s, a))
  {
    match a
    case Post(e) => PostKeepsInv(s, e);
    case Take =>
      EventIffPending(s);
      NextCount(|s.consumed|);
      forall j: nat | |s.produced| - EVENT_RING_SIZE <= j < |s.produced|
        ensures Holds(Step(s, a), j)
      {
        assert Holds(s, j);
      }
    case Publish =>
      forall j: nat | |s.produced| - EVENT_RING_SIZE <= j < |s.produced|
        ensures Holds(Step(s, a), j)
      {
        assert Holds(s, j);
      }
  }

  lemma PostKeepsInv(s: State, e: Trb)
    requires Inv(s) && HasRoom(s)
    ensures Inv(Step(s, Post(e)))
  {
    var s', posted := Step(s, Post(e)), |s.produced|;
    NextCount(posted);
    forall j: nat | posted + 1 - EVENT_RING_SIZE <= j < posted + 1
      ensures Holds(s', j)
    {
      if j < posted {
        assert Holds(s, j);
        SlotsDiffer(j, posted);
      }
    }
  }

  /** With everything published, the controller can post exactly while fewer than 32 events are pending. */
  lemma PublishedHasRoom(s: State)
    requires Inv(s) && s.published == |s.consumed|
    ensures HasRoom(s) <==> |s.produced| - |s.consumed| < EVENT_RING_SIZE
  {
  }

  /** A run interleaves posts, takes and publications in any order. */
  ghost predicate Run(states: seq<State>, actions: seq<Action>)
  {
    && |states| == |actions| + 1 && states[0] == Initial()
    && forall i | 0 <= i < |actions| :: Enabled(states[i], actions[i]) && states[i + 1] == Step(states[i], actions[i])
  }

  /** In every state of every run: what was taken, followed by what is pending, is what was posted, and the
      driver sees an event exactly when one is pending. */
  lemma {:induction false} NothingLost(states: seq<State>, actions: seq<Action>, k: nat)
    requires Run(states, actions) && k <= |actions|
    ensures Inv(states[k])
    ensures states[k].consumed + states[k].produced[|states[k].consumed|..] == states[k].produced
    ensures HasEvent(states[k]) <==> |states[k].consumed| < |states[k].produced|
  {
    if k > 0 {
      NothingLost(states, actions, k - 1);
      StepKeepsInv(states[k - 1], actions[k - 1]);
    }
    EventIffPending(states[k]);
  }

  /** The driver's side, with the three places of xhci.c that take events. */
  class Driver {
    const ring: array<Trb>
    var dequeue: nat
    var cycleState: nat
    var erdp: nat
    var enqueue: nat
    var producerCycle: nat
    ghost var produced: seq<Trb>
    ghost var consumed: seq<Trb>
    ghost var published: nat

    ghost function View(): State
      reads this, ring
    {
      State(ring[..], dequeue, cycleState, enqueue, producerCycle, produced, consumed, published)
    }

    ghost predicate Valid()
      reads this, ring
    {
      Inv(View()) && erdp == published % EVENT_RING_SIZE
    }

    constructor ()
      ensures Valid() && fresh(ring) && View() == Initial()
    {
      ring := new Trb[EVENT_RING_SIZE](_ => ZERO);
      dequeue, cycleState, erdp := 0, 1, 0;
      enqueue, producerCycle, produced, consumed, published := 0, 1, [], [], 0;
    }

    /** The controller's step, for the record: it writes the slot and nothing of the driver's. */
    method ControllerPost(event: Trb)
      requires Valid() && HasRoom(View())
      modifies ring, this`enqueue, this`producerCycle, this`produced
      ensures Valid() && View() == Step(old(View()), Post(event))
    {
      PostKeepsInv(View(), event);
      var posted := WithCycle(event, producerCycle);
      ring[enqueue] := posted;
      enqueue, producerCycle := Next(enqueue), Toggled(enqueue, producerCycle);
      produced := produced + [posted];
    }

    /** One event, if there is one; the dequeue pointer is not published yet. */
    method TakeEvent() returns (taken: bool, event: Trb)
      requires Valid()
      modifies this`dequeue, this`cycleState, this`consumed
      ensures Valid() && (taken <==> |old(consumed)| < |produced|) && (taken <==> HasEvent(old(View())))
      ensures taken ==> event == produced[|old(consumed)|] && View() == Step(old(View()), Take)
      ensures !taken ==> View() == old(View())
    {
      EventIffPending(View());
      event := ring[dequeue];
      taken := CycleBit(event) == cycleState;
      if taken {
        StepKeepsInv(View(), Take);
        consumed := consumed + [event];
        dequeue := (dequeue + 1) % EVENT_RING_SIZE;
        if dequeue == 0 {
          cycleState := if cycleState == 0 then 1 else 0;
        }
      }
    }

    method PublishDequeue()
      requires Valid()
      modifies this`erdp, this`published
      ensures Valid() && View() == Step(old(View()), Publish)
    {
      StepKeepsInv(View(), Publish);
      erdp := dequeue;
      published := |consumed|;
    }

    /** One turn of the wait loop of xhci_send_command and of usb_kbd_poll: take an event and publish at once. */
    method PollEvent() returns (taken: bool, event: Trb)
      requires Valid()
      modifies this`dequeue, this`cycleState, this`consumed, this`erdp, this`published
      ensures Valid() && (taken <==> |old(consumed)| < |produced|)
      ensures taken ==> event == produced[|old(consumed)|] && consumed == old(consumed) + [event] && published == |consumed|
      ensures !taken ==> View() == old(View())
    {
      taken, event := TakeEvent();
      if taken {
        PublishDequeue();
      }
    }

    /** The flush loop of xhci_init: up to 16 takes, published once at the end. */
    method FlushEvents()
      requires Valid()
      modifies this`dequeue, this`cycleState, this`consumed, this`erdp, this`published
      ensures Valid() && published == |consumed|
      ensures |consumed| == if |old(consumed)| + 16 < |produced| then |old(consumed)| + 16 else |produced|
    {
      var flush := 0;
      while flush < 16
        invariant flush <= 16 && Valid() && |consumed| == |old(consumed)| + flush && published == old(published)
      {
        var taken, event := TakeEvent();
        if !taken {
          break;
        }
        flush := flush + 1;
      }
      PublishDequeue();
    }

    /** usb_kbd_poll: up to four events, each published; the events it saw are returned in order. */
    method PollEvents() returns (events: seq<Trb>)
      requires Valid()
      modifies this`dequeue, this`cycleState, this`consumed, this`erdp, this`published
      ensures Valid() && consumed == old(consumed) + events && |events| <= 4
      ensures |events| < 4 ==> consumed == produced
      ensures events != [] ==> published == |consumed| && erdp == dequeue && HasRoom(View())
      ensures events == [] ==> View() == old(View())
      ensures old(published == |consumed|) ==> published == |consumed|
      ensures published == |consumed| ==> (HasRoom(View()) <==> |produced| - |consumed| < EVENT_RING_SIZE)
    {
      events := [];
      while |events| < 4
        invariant |events| <= 4 && Valid() && consumed == old(consumed) + events
        invariant if events == [] then View() == old(View()) else published == |consumed|
      {
        var taken, event := PollEvent();
        if !taken {
          break;
        }
        events := events + [event];
      }
      if published == |consumed| {
        PublishedHasRoom(View());
      }
    }
  }
}
