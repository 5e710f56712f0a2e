/** The descriptor tables shared by driver and DMA core. */
module DescriptorRing {
  // The driver's lists against the core's own walk through the table, in every interleaving of their steps.

  import opened Results

  type Packet = seq<nat>

  /** A descriptor table: the driver's lists of descriptor numbers, the enable bits and packet
      buffers both sides access, and the core's own position in the table. */
  datatype Ring = Ring(size: nat, used: seq<nat>, free: seq<nat>, enabled: seq<bool>, buffers: seq<Packet>, hw: nat)

  function Next(i: nat, size: nat): nat {
    if i + 1 < size then i + 1 else 0
  }

  /** The i-th descriptor of the table counted from first, cyclically. */
  function Cyclic(first: nat, i: nat, size: nat): nat {
    if first + i < size then first + i else first + i - size
  }

  /** The lists one after the other are a rotation of the table starting at first. */
  predicate IsRotation(order: seq<nat>, first: nat, size: nat) {
    first < size && |order| == size && forall i :: 0 <= i < size ==> order[i] == Cyclic(first, i, size)
  }

  /** The tables are as long as announced and the lists name their descriptors. */
  predicate Numbered(r: Ring) {
    && |r.enabled| == |r.buffers| == r.size
    && (forall i :: 0 <= i < |r.used| ==> r.used[i] < r.size)
    && (forall i :: 0 <= i < |r.free| ==> r.free[i] < r.size)
  }

  /** With e completed descriptors at the front of the used list: the enabled descriptors are the rest
      of it, none is in the free list, and the core stands at the first enabled one. */
  predicate InvAt(r: Ring, first: nat, e: nat) {
    && Numbered(r) && r.size >= 1
    && IsRotation(r.used + r.free, first, r.size)
    && e <= |r.used|
    && (forall i :: 0 <= i < |r.used| ==> (r.enabled[r.used[i]] <==> i >= e))
    && (forall i :: 0 <= i < |r.free| ==> !r.enabled[r.free[i]])
    && (e < |r.used| ==> r.hw == r.used[e])
    && r.hw == (if e < r.size then Cyclic(first, e, r.size) else first)
  }

  // ----- steps of the core

  /** The core completes the descriptor at its position: a receiver leaves the packet there. */
  function Complete(r: Ring, p: Packet): Ring
    requires |r.enabled| == |r.buffers| == r.size && r.hw < r.size
  {
    r.(enabled := r.enabled[r.hw := false], buffers := r.buffers[r.hw := p], hw := Next(r.hw, r.size))
  }

  // ----- steps of the driver

  /** list_move_tail of the first used descriptor to the free list. */
  function Release(r: Ring): Ring
    requires r.used != []
  {
    r.(used := r.used[1..], free := r.free + [r.used[0]])
  }

  /** set_active of the first free descriptor. */
  function Enable(r: Ring): Ring
    requires r.free != [] && r.free[0] < |r.enabled|
  {
    r.(enabled := r.enabled[r.free[0] := true])
  }

  /** list_move_tail of the first free descriptor to the used list. */
  function Move(r: Ring): Ring
    requires r.free != []
  {
    r.(used := r.used + [r.free[0]], free := r.free[1..])
  }

  function Activate(r: Ring): Ring
    requires r.free != [] && r.free[0] < |r.enabled|
  {
    Move(Enable(r))
  }

  function Fill(r: Ring, p: Packet): Ring
    requires r.free != [] && r.free[0] < |r.buffers|
  {
    r.(buffers := r.buffers[r.free[0] := p])
  }

  /** No descriptor is listed twice, and every one is listed. */
  lemma RotationHasAll(order: seq<nat>, first: nat, size: nat)
    requires IsRotation(order, first, size)
    ensures forall i, j :: 0 <= i < j < |order| ==> order[i] != order[j]
    ensures forall d :: 0 <= d < size ==> d in order
    ensures forall i :: 0 <= i < |order| ==> order[i] < size
  {
    forall d | 0 <= d < size ensures d in order {
      assert order[if d >= first then d - first else d + size - first] == d;
    }
  }

  lemma RotationByOne(a: seq<nat>, first: nat, size: nat)
    requires IsRotation(a, first, size)
    ensures size >= 1 && IsRotation(a[1..] + [a[0]], Next(first, size), size)
  {
  }

  /** The core works on the first enabled descriptor and on no other. */
  lemma CoreAtFirstEnabled(r: Ring, first: nat, e: nat)
    requires InvAt(r, first, e)
    ensures r.hw < r.size && (r.enabled[r.hw] <==> e < |r.used|)
  {
    RotationHasAll(r.used + r.free, first, r.size);
    if e == |r.used| {
      var order := r.used + r.free;
      if e < r.size {
        assert order[e] == r.free[0];
      } else {
        assert order[0] == r.used[0];
      }
    }
  }

  /** The first enabled descriptor is listed once, and the core goes on to the one behind it. */
  lemma AtFirstEnabled(r: Ring, first: nat, e: nat)
    requires InvAt(r, first, e) && e < |r.used|
    ensures r.hw == r.used[e] < r.size
    ensures forall i :: 0 <= i < |r.used| && i != e ==> r.used[i] != r.hw
    ensures forall i :: 0 <= i < |r.free| ==> r.free[i] != r.hw
    ensures Next(r.hw, r.size) == if e + 1 < r.size then Cyclic(first, e + 1, r.size) else first
    ensures e + 1 < |r.used| ==> Next(r.hw, r.size) == r.used[e + 1]
  {
    var order := r.used + r.free;
    RotationHasAll(order, first, r.size);
    assert forall i :: 0 <= i < |r.used| ==> order[i] == r.used[i];
    assert forall i :: 0 <= i < |r.free| ==> order[|r.used| + i] == r.free[i];
  }

  lemma CompleteKeeps(r: Ring, first: nat, e: nat, p: Packet)
    requires InvAt(r, first, e) && e < |r.used|
    ensures r.hw < r.size && InvAt(Complete(r, p), first, e + 1)
    ensures Complete(r, p).used == r.used && Complete(r, p).buffers[r.used[e]] == p
    ensures forall i :: 0 <= i < |r.used| && i != e ==> Complete(r, p).buffers[r.used[i]] == r.buffers[r.used[i]]
  {
    AtFirstEnabled(r, first, e);
    hide IsRotation, Next, Cyclic;
  }

  lemma ReleaseKeeps(r: Ring, first: nat, e: nat)
    requires InvAt(r, first, e) && e > 0
    ensures InvAt(Release(r), Next(first, r.size), e - 1)
  {
    var order, r' := r.used + r.free, Release(r);
    RotationHasAll(order, first, r.size);
    RotationByOne(order, first, r.size);
    assert r'.used + r'.free == order[1..] + [order[0]];
    assert forall i :: 0 <= i < |r.used| ==> order[i] == r.used[i];
  }

  lemma ActivateKeeps(r: Ring, first: nat, e: nat)
    requires InvAt(r, first, e) && r.free != []
    ensures r.free[0] < r.size && !r.enabled[r.free[0]] && InvAt(Activate(r), first, e)
  {
    var order, r' := r.used + r.free, Activate(r);
    assert e < r.size ==> order[e] == Cyclic(first, e, r.size);
    hide IsRotation, Cyclic;
    RotationHasAll(order, first, r.size);
    assert order[|r.used|] == r.free[0];
    assert r'.used + r'.free == order;
    forall i | 0 <= i < |r.used| ensures order[i] == r.used[i] && r.used[i] != r.free[0] {
    }
    forall i | 1 <= i < |r.free| ensures order[|r.used| + i] == r.free[i] && r.free[i] != r.free[0] {
    }
  }

  lemma FillKeeps(r: Ring, first: nat, e: nat, p: Packet)
    requires InvAt(r, first, e) && r.free != []
    ensures r.free[0] < r.size && InvAt(Fill(r, p), first, e)
    ensures forall i :: 0 <= i < |r.used| ==> Fill(r, p).buffers[r.used[i]] == r.buffers[r.used[i]]
  {
    var order := r.used + r.free;
    RotationHasAll(order, first, r.size);
    assert order[|r.used|] == r.free[0];
    forall i | 0 <= i < |r.used| ensures order[i] == r.used[i] && r.used[i] != r.free[0] {
    }
  }

  // ----- the driver between two accesses to the table

  /** What the driver has begun with a descriptor: its packet is copied out, a packet is copied in,
      or it is enabled and still in the free list. */
  datatype Phase = Idle | Copied | Filled(packet: Packet) | Enabled

  /** The table as it is once an enabled descriptor is in the used list. */
  function Settled(r: Ring, phase: Phase): Ring {
    if phase.Enabled? && r.free != [] then Move(r) else r
  }

  lemma SettledLists(r: Ring, phase: Phase)
    ensures Settled(r, phase).used + Settled(r, phase).free == r.used + r.free
    ensures Settled(r, phase) == r.(used := Settled(r, phase).used, free := Settled(r, phase).free)
  {
    if r.free != [] {
      assert r.used + [r.free[0]] + r.free[1..] == r.used + r.free;
    }
  }

  /** With the lists in the middle of a move the numbers in them are sound, and so is the core. */
  lemma RingIsSound(r: Ring, phase: Phase, first: nat, e: nat)
    requires InvAt(Settled(r, phase), first, e)
    ensures Numbered(r) && r.hw < r.size
    ensures r.enabled[r.hw] <==> e < |Settled(r, phase).used|
  {
    CoreAtFirstEnabled(Settled(r, phase), first, e);
    SettledLists(r, phase);
    RotationHasAll(r.used + r.free, first, r.size);
    assert forall i :: 0 <= i < |r.used| ==> (r.used + r.free)[i] == r.used[i];
    assert forall i :: 0 <= i < |r.free| ==> (r.used + r.free)[|r.used| + i] == r.free[i];
  }

  /** Every descriptor is in the two lists together exactly once. */
  ghost predicate EachOnce(r: Ring) {
    forall d: nat :: multiset(r.used + r.free)[d] == if d < r.size then 1 else 0
  }

  lemma {:induction false} OnceIn(order: seq<nat>, d: nat)
    requires forall i, j :: 0 <= i < j < |order| ==> order[i] != order[j]
    ensures multiset(order)[d] == if d in order then 1 else 0
  {
    if order != [] {
      OnceIn(order[1..], d);
      assert order == [order[0]] + order[1..];
      assert order[0] !in order[1..];
    }
  }

  lemma ListedOnce(r: Ring, phase: Phase, first: nat, e: nat)
    requires InvAt(Settled(r, phase), first, e)
    ensures EachOnce(r)
  {
    SettledLists(r, phase);
    var order: seq<nat> := r.used + r.free;
    RotationHasAll(order, first, r.size);
    forall d: nat ensures multiset(order)[d] == if d < r.size then 1 else 0 {
      OnceIn(order, d);
    }
  }

  // ----- a receiver

  /** What the core has received and what the driver has handed on, beside the table. */
  datatype Receiver = Receiver(ring: Ring, phase: Phase, received: seq<Packet>, delivered: seq<Packet>)

  /** The packets that wait in the first e used descriptors. */
  function Waiting(r: Ring, e: nat): (w: seq<Packet>)
    requires e <= |r.used| && Numbered(r)
    ensures |w| == e
  {
    seq(e, i requires 0 <= i < e => r.buffers[r.used[i]])
  }

  /** Everything received was delivered or waits, in order. */
  predicate ReceiverAt(s: Receiver, first: nat, e: nat) {
    var r := Settled(s.ring, s.phase);
    && InvAt(r, first, e)
    && !s.phase.Filled? && (s.phase.Enabled? ==> s.ring.free != []) && (s.phase.Copied? ==> e > 0)
    && s.received == s.delivered + if s.phase.Copied? then Waiting(r, e)[1..] else Waiting(r, e)
  }

  ghost predicate ReceiverInv(s: Receiver) {
    exists first: nat, e: nat :: ReceiverAt(s, first, e)
  }

  /** One access to the table of either side: the core receives a packet, stalling while its
      descriptor is not enabled; the driver copies a packet out (or drops it) and moves its
      descriptor to the free list, or enables a free one and moves it to the used list. */
  datatype RxEvent = Receive(p: Packet) | CopyOut | MoveFree | SetActive | MoveBusy

  function RxStep(s: Receiver, ev: RxEvent): Receiver
    requires ReceiverInv(s)
  {
    ReceiverIsSound(s);
    var r := s.ring;
    match ev
    case Receive(p) => if !r.enabled[r.hw] then s else s.(ring := Complete(r, p), received := s.received + [p])
    case CopyOut =>
      if !s.phase.Idle? || r.used == [] || r.enabled[r.used[0]] then s
      else s.(phase := Copied, delivered := s.delivered + [r.buffers[r.used[0]]])
    case MoveFree => if !s.phase.Copied? then s else s.(ring := Release(r), phase := Idle)
    case SetActive => if !s.phase.Idle? || r.free == [] then s else s.(ring := Enable(r), phase := Enabled)
    case MoveBusy => if !s.phase.Enabled? then s else s.(ring := Move(r), phase := Idle)
  }

  lemma ReceiverIsSound(s: Receiver)
    requires ReceiverInv(s)
    ensures Numbered(s.ring) && s.ring.hw < s.ring.size
    ensures (s.phase.Copied? ==> s.ring.used != []) && (s.phase.Enabled? ==> s.ring.free != [])
  {
    var first: nat, e: nat :| ReceiverAt(s, first, e);
    RingIsSound(s.ring, s.phase, first, e);
  }

  /** Every step of either side keeps the invariant: no descriptor is lost or listed twice, the
      enabled ones form the end of the used list, and packets come out in the order received. */
  lemma RxStepKeeps(s: Receiver, ev: RxEvent)
    requires ReceiverInv(s)
    ensures ReceiverInv(RxStep(s, ev)) && RxStep(s, ev).ring.size == s.ring.size
  {
    hide ReceiverAt;
    var first: nat, e: nat :| ReceiverAt(s, first, e);
    ReceiverIsSound(s);
    match ev {
      case Receive(p) => ReceiveKeeps(s, first, e, p);
      case CopyOut => CopyOutKeeps(s, first, e);
      case MoveFree => MoveFreeKeeps(s, first, e);
      case SetActive => SetActiveKeeps(s, first, e);
      case MoveBusy => MoveBusyKeeps(s, first, e);
    }
  }

  lemma InTable(r: Ring, first: nat, e: nat)
    requires InvAt(r, first, e)
    ensures e <= |r.used| && Numbered(r)
  {
  }

  lemma ReceiveKeeps(s: Receiver, first: nat, e: nat, p: Packet)
    requires ReceiverInv(s) && ReceiverAt(s, first, e)
    ensures ReceiverInv(RxStep(s, Receive(p)))
  {
    hide InvAt;
    var r := Settled(s.ring, s.phase);
    RingIsSound(s.ring, s.phase, first, e);
    InTable(r, first, e);
    if e < |r.used| {
      WaitingGrows(r, first, e, p);
      InTable(Complete(r, p), first, e + 1);
      var before, after := Waiting(r, e), Waiting(Complete(r, p), e + 1);
      assert e > 0 ==> after[1..] == before[1..] + [p];
      assert ReceiverAt(RxStep(s, Receive(p)), first, e + 1);
    }
  }

  lemma WaitingGrows(r: Ring, first: nat, e: nat, p: Packet)
    requires InvAt(r, first, e) && e < |r.used|
    ensures r.hw < r.size && InvAt(Complete(r, p), first, e + 1)
    ensures Waiting(Complete(r, p), e + 1) == Waiting(r, e) + [p]
  {
    hide InvAt;
    InTable(r, first, e);
    CompleteKeeps(r, first, e, p);
    assert Waiting(Complete(r, p), e + 1) == Waiting(r, e) + [p];
  }

  lemma SetActiveKeeps(s: Receiver, first: nat, e: nat)
    requires ReceiverInv(s) && ReceiverAt(s, first, e)
    ensures ReceiverInv(RxStep(s, RxEvent.SetActive))
  {
    if s.phase.Idle? && s.ring.free != [] {
      ActivateKeeps(s.ring, first, e);
      assert Waiting(Activate(s.ring), e) == Waiting(s.ring, e);
      assert ReceiverAt(RxStep(s, RxEvent.SetActive), first, e);
    }
  }

  lemma MoveBusyKeeps(s: Receiver, first: nat, e: nat)
    requires ReceiverInv(s) && ReceiverAt(s, first, e)
    ensures ReceiverInv(RxStep(s, RxEvent.MoveBusy))
  {
    hide InvAt;
    ReceiverIsSound(s);
    assert ReceiverAt(RxStep(s, RxEvent.MoveBusy), first, e);
  }

  lemma CopyOutKeeps(s: Receiver, first: nat, e: nat)
    requires ReceiverInv(s) && ReceiverAt(s, first, e)
    ensures ReceiverInv(RxStep(s, CopyOut))
    ensures s.phase.Idle? && e > 0 ==>
              var t := RxStep(s, CopyOut);
              t.phase.Copied? && t.received == s.received && t.ring == s.ring && ReceiverAt(t, first, e)
  {
    var r := s.ring;
    if s.phase.Idle? && r.used != [] && !r.enabled[r.used[0]] {
      var w := Waiting(r, e);
      assert w == [r.buffers[r.used[0]]] + w[1..];
      assert s.delivered + ([w[0]] + w[1..]) == s.delivered + [w[0]] + w[1..];
      assert ReceiverAt(RxStep(s, CopyOut), first, e);
    }
  }

  lemma MoveFreeKeeps(s: Receiver, first: nat, e: nat)
    requires ReceiverInv(s) && ReceiverAt(s, first, e)
    ensures ReceiverInv(RxStep(s, RxEvent.MoveFree))
    ensures s.phase.Copied? ==>
              var t := RxStep(s, RxEvent.MoveFree);
              && e > 0 && t.phase.Idle? && t.received == s.received
              && ReceiverAt(t, Next(first, s.ring.size), e - 1)
  {
    if s.phase.Copied? {
      ReleaseKeeps(s.ring, first, e);
      assert Waiting(Release(s.ring), e - 1) == Waiting(s.ring, e)[1..];
      assert ReceiverAt(RxStep(s, RxEvent.MoveFree), Next(first, s.ring.size), e - 1);
    }
  }

  /** The table after initialisation: every descriptor is free and disabled, in table order. */
  function FreshRing(size: nat): Ring {
    Ring(size, [], seq(size, i => i), seq(size, i => false), seq(size, i => []), 0)
  }

  lemma FreshIsSound(size: nat)
    requires size >= 1
    ensures InvAt(FreshRing(size), 0, 0)
  {
  }

  function RxRun(s: Receiver, events: seq<RxEvent>): (r: Receiver)
    requires ReceiverInv(s)
    ensures ReceiverInv(r) && r.ring.size == s.ring.size
    decreases |events|
  {
    if events == [] then s
    else
      RxStepKeeps(s, events[0]);
      RxRun(RxStep(s, events[0]), events[1..])
  }

  /** From a fresh table, after any interleaving, the delivered packets are the first received ones,
      in order, and what is not yet delivered waits in the table. */
  lemma PacketsInOrder(size: nat, events: seq<RxEvent>)
    requires size >= 1
    ensures ReceiverInv(Receiver(FreshRing(size), Idle, [], []))
    ensures var s := RxRun(Receiver(FreshRing(size), Idle, [], []), events);
            && |s.delivered| <= |s.received| <= |s.delivered| + size
            && s.delivered == s.received[..|s.delivered|]
            && s.ring.size == size && EachOnce(s.ring)
  {
    FreshIsSound(size);
    var start := Receiver(FreshRing(size), Idle, [], []);
    assert ReceiverAt(start, 0, 0);
    var s := RxRun(start, events);
    var first: nat, e: nat :| ReceiverAt(s, first, e);
    ListedOnce(s.ring, s.phase, first, e);
  }

  // ----- and it makes progress

  /** The core's descriptor is enabled whenever any is. */
  lemma CoreWorksIff(r: Ring, phase: Phase, first: nat, e: nat)
    requires InvAt(Settled(r, phase), first, e)
    ensures Numbered(r) && r.hw < r.size && (r.enabled[r.hw] <==> exists d :: 0 <= d < r.size && r.enabled[d])
  {
    RingIsSound(r, phase, first, e);
    var v := Settled(r, phase);
    SettledLists(r, phase);
    if !v.enabled[v.hw] {
      RotationHasAll(v.used + v.free, first, v.size);
      forall d | 0 <= d < r.size ensures !r.enabled[d] {
        assert d in v.used + v.free;
      }
    }
  }

  /** A packet is received exactly if some descriptor is enabled. */
  lemma PacketIsReceivedIff(s: Receiver, p: Packet)
    requires ReceiverInv(s)
    ensures Numbered(s.ring)
    ensures RxStep(s, Receive(p)).received
            == if exists d :: 0 <= d < s.ring.size && s.ring.enabled[d] then s.received + [p] else s.received
  {
    ReceiverIsSound(s);
    var first: nat, e: nat :| ReceiverAt(s, first, e);
    CoreWorksIff(s.ring, s.phase, first, e);
  }

  /** What the driver has begun it can finish. */
  lemma PhaseEnds(s: Receiver) returns (events: seq<RxEvent>)
    requires ReceiverInv(s)
    ensures var t := RxRun(s, events); t.phase.Idle? && t.received == s.received
  {
    hide ReceiverAt, RxStep;
    if s.phase.Idle? {
      return [];
    }
    events := [if s.phase.Copied? then RxEvent.MoveFree else RxEvent.MoveBusy];
    RxStepKeeps(s, events[0]);
    PhaseIsLeft(s);
    assert RxRun(s, events) == RxRun(RxStep(s, events[0]), events[1..]) == RxStep(s, events[0]);
  }

  lemma PhaseIsLeft(s: Receiver)
    requires ReceiverInv(s) && !s.phase.Idle?
    ensures var t := RxStep(s, if s.phase.Copied? then RxEvent.MoveFree else RxEvent.MoveBusy);
            t.phase.Idle? && t.received == s.received
  {
  }

  /** From every state the driver can hand on everything that was received. */
  lemma EverythingDelivered(s: Receiver) returns (events: seq<RxEvent>)
    requires ReceiverInv(s)
    ensures var t := RxRun(s, events); t.delivered == t.received == s.received
  {
    hide ReceiverAt;
    var begun := PhaseEnds(s);
    var t := RxRun(s, begun);
    var first: nat, e: nat :| ReceiverAt(t, first, e);
    var more := WaitingDelivered(t, first, e);
    RxRunsOn(s, begun, more);
    events := begun + more;
  }

  lemma {:induction false} RxRunsOn(s: Receiver, a: seq<RxEvent>, b: seq<RxEvent>)
    requires ReceiverInv(s)
    ensures RxRun(s, a + b) == RxRun(RxRun(s, a), b)
    decreases |a|
  {
    hide ReceiverInv, RxStep;
    if a == [] {
      assert a + b == b;
    } else {
      RxStepKeeps(s, a[0]);
      RxRunsOn(RxStep(s, a[0]), a[1..], b);
      assert (a + b)[1..] == a[1..] + b;
    }
  }

  lemma {:induction false} WaitingDelivered(s: Receiver, first: nat, e: nat) returns (events: seq<RxEvent>)
    requires ReceiverInv(s) && ReceiverAt(s, first, e) && s.phase.Idle?
    ensures var t := RxRun(s, events); t.delivered == t.received == s.received
    decreases e
  {
    hide ReceiverAt, ReceiverInv, RxStep;
    if e == 0 {
      AllDelivered(s, first);
      return [];
    }
    FirstIsTaken(s, first, e);
    RxStepKeeps(s, CopyOut);
    var s1 := RxStep(s, CopyOut);
    RxStepKeeps(s1, RxEvent.MoveFree);
    var s2 := RxStep(s1, RxEvent.MoveFree);
    var rest := WaitingDelivered(s2, Next(first, s.ring.size), e - 1);
    events := [CopyOut, RxEvent.MoveFree] + rest;
    TwoSteps(s, CopyOut, RxEvent.MoveFree, rest);
  }

  lemma TwoSteps(s: Receiver, a: RxEvent, b: RxEvent, rest: seq<RxEvent>)
    requires ReceiverInv(s) && ReceiverInv(RxStep(s, a)) && ReceiverInv(RxStep(RxStep(s, a), b))
    ensures RxRun(s, [a, b] + rest) == RxRun(RxStep(RxStep(s, a), b), rest)
  {
    hide ReceiverInv, RxStep;
    assert ([a, b] + rest)[1..] == [b] + rest && ([b] + rest)[1..] == rest;
  }

  lemma AllDelivered(s: Receiver, first: nat)
    requires ReceiverAt(s, first, 0) && s.phase.Idle?
    ensures s.received == s.delivered
  {
    hide InvAt;
  }

  lemma FirstIsTaken(s: Receiver, first: nat, e: nat)
    requires ReceiverInv(s) && ReceiverAt(s, first, e) && s.phase.Idle? && e > 0
    ensures ReceiverInv(RxStep(s, CopyOut))
    ensures var t := RxStep(RxStep(s, CopyOut), RxEvent.MoveFree);
            t.phase.Idle? && t.received == s.received && ReceiverAt(t, Next(first, s.ring.size), e - 1)
  {
    hide ReceiverAt, RxStep;
    CopyOutKeeps(s, first, e);
    MoveFreeKeeps(RxStep(s, CopyOut), first, e);
  }

  /** grspw2_rx_desc_add. */
  function AddDescriptor(r: Ring): Ring
    requires Numbered(r)
  {
    if r.free == [] then r else Activate(r)
  }

  /** Without the core between them, the accesses of grspw2_get_pkt or grspw2_drop_pkt hand on a packet
      and re-add its descriptor. */
  lemma TakeIsItsSteps(s: Receiver)
    requires ReceiverInv(s) && s.phase.Idle? && s.ring.used != []
    requires Numbered(s.ring) && !s.ring.enabled[s.ring.used[0]]
    ensures var t := RxRun(s, [CopyOut, RxEvent.MoveFree, RxEvent.SetActive, RxEvent.MoveBusy]);
            && Numbered(Release(s.ring))
            && t == s.(ring := AddDescriptor(Release(s.ring)),
                       delivered := s.delivered + [s.ring.buffers[s.ring.used[0]]])
  {
    hide ReceiverInv;
    var events := [CopyOut, RxEvent.MoveFree, RxEvent.SetActive, RxEvent.MoveBusy];
    var s1 := RxStep(s, CopyOut);
    RxStepKeeps(s, CopyOut);
    var s2 := RxStep(s1, RxEvent.MoveFree);
    RxStepKeeps(s1, RxEvent.MoveFree);
    AddIsItsSteps(s2, events[1..][1..]);
  }

  lemma AddIsItsSteps(s: Receiver, events: seq<RxEvent>)
    requires ReceiverInv(s) && s.phase.Idle? && events == [RxEvent.SetActive, RxEvent.MoveBusy]
    ensures Numbered(s.ring) && RxRun(s, events) == s.(ring := AddDescriptor(s.ring))
  {
    hide ReceiverInv;
    ReceiverIsSound(s);
    var s' := RxStep(s, RxEvent.SetActive);
    RxStepKeeps(s, RxEvent.SetActive);
    RxStepKeeps(s', RxEvent.MoveBusy);
    assert events[1..][1..] == [];
    assert RxRun(s, events) == RxRun(s', events[1..]) == RxStep(s', RxEvent.MoveBusy);
  }

  // ----- a transmitter

  datatype Transmitter = Transmitter(ring: Ring, phase: Phase, submitted: seq<Packet>, sent: seq<Packet>)

  /** The packets of the enabled descriptors. */
  function InFlight(r: Ring, e: nat): (w: seq<Packet>)
    requires e <= |r.used| && Numbered(r)
    ensures |w| == |r.used| - e
  {
    seq(|r.used| - e, i requires 0 <= i < |r.used| - e => r.buffers[r.used[e + i]])
  }

  /** Everything submitted was sent or is in flight, in order and unchanged, and so is a packet in
      the buffer of a descriptor not yet enabled. */
  predicate TransmitterAt(s: Transmitter, first: nat, e: nat) {
    var r := Settled(s.ring, s.phase);
    && InvAt(r, first, e)
    && !s.phase.Copied? && (s.phase.Enabled? ==> s.ring.free != [])
    && (s.phase.Filled? ==> r.free != [] && r.buffers[r.free[0]] == s.phase.packet)
    && s.submitted == s.sent + InFlight(r, e)
  }

  ghost predicate TransmitterInv(s: Transmitter) {
    exists first: nat, e: nat :: TransmitterAt(s, first, e)
  }

  /** One access to the table of either side: the core sends a packet; the driver moves a completed
      descriptor to the free list, copies a packet into the buffer of a free one, enables it, or
      moves it to the used list. A packet is submitted when its descriptor is enabled. */
  datatype TxEvent = Send | MoveFree | CopyIn(p: Packet) | SetActive | MoveBusy

  function TxStep(s: Transmitter, ev: TxEvent): Transmitter
    requires TransmitterInv(s)
  {
    TransmitterIsSound(s);
    var r := s.ring;
    match ev
    case Send =>
      if !r.enabled[r.hw] then s
      else s.(ring := Complete(r, r.buffers[r.hw]), sent := s.sent + [r.buffers[r.hw]])
    case MoveFree =>
      if !s.phase.Idle? || r.used == [] || r.enabled[r.used[0]] then s else s.(ring := Release(r))
    case CopyIn(p) => if !s.phase.Idle? || r.free == [] then s else s.(ring := Fill(r, p), phase := Filled(p))
    case SetActive =>
      if !s.phase.Filled? then s
      else s.(ring := Enable(r), phase := Enabled, submitted := s.submitted + [s.phase.packet])
    case MoveBusy => if !s.phase.Enabled? then s else s.(ring := Move(r), phase := Idle)
  }

  lemma TransmitterIsSound(s: Transmitter)
    requires TransmitterInv(s)
    ensures Numbered(s.ring) && s.ring.hw < s.ring.size
    ensures s.phase.Filled? || s.phase.Enabled? ==> s.ring.free != []
  {
    var first: nat, e: nat :| TransmitterAt(s, first, e);
    RingIsSound(s.ring, s.phase, first, e);
  }

  lemma TxStepKeeps(s: Transmitter, ev: TxEvent)
    requires TransmitterInv(s)
    ensures TransmitterInv(TxStep(s, ev)) && TxStep(s, ev).ring.size == s.ring.size
  {
    hide TransmitterAt;
    var first: nat, e: nat :| TransmitterAt(s, first, e);
    TransmitterIsSound(s);
    match ev {
      case Send => SendKeeps(s, first, e);
      case MoveFree => TxMoveFreeKeeps(s, first, e);
      case CopyIn(p) => CopyInKeeps(s, first, e, p);
      case SetActive => SubmitKeeps(s, first, e);
      case MoveBusy => TxMoveBusyKeeps(s, first, e);
    }
  }

  lemma SendKeeps(s: Transmitter, first: nat, e: nat)
    requires TransmitterInv(s) && TransmitterAt(s, first, e)
    ensures TransmitterInv(TxStep(s, Send))
  {
    hide InvAt;
    var r := Settled(s.ring, s.phase);
    RingIsSound(s.ring, s.phase, first, e);
    InTable(r, first, e);
    if e < |r.used| {
      var p := r.buffers[r.hw];
      FirstIsSent(r, first, e);
      InTable(Complete(r, p), first, e + 1);
      var rest := InFlight(Complete(r, p), e + 1);
      assert s.sent + ([p] + rest) == s.sent + [p] + rest;
      assert TransmitterAt(TxStep(s, Send), first, e + 1);
    }
  }

  lemma FirstIsSent(r: Ring, first: nat, e: nat)
    requires InvAt(r, first, e) && e < |r.used|
    ensures r.hw < r.size
    ensures var c := Complete(r, r.buffers[r.hw]);
            && c.buffers == r.buffers && InvAt(c, first, e + 1)
            && InFlight(r, e) == [r.buffers[r.hw]] + InFlight(c, e + 1)
  {
    InTable(r, first, e);
    assert r.hw == r.used[e];
    hide InvAt;
    CompleteKeeps(r, first, e, r.buffers[r.hw]);
  }

  lemma TxMoveFreeKeeps(s: Transmitter, first: nat, e: nat)
    requires TransmitterInv(s) && TransmitterAt(s, first, e)
    ensures TransmitterInv(TxStep(s, TxEvent.MoveFree))
  {
    if s.phase.Idle? && s.ring.used != [] && !s.ring.enabled[s.ring.used[0]] {
      ReleaseKeeps(s.ring, first, e);
      assert InFlight(Release(s.ring), e - 1) == InFlight(s.ring, e);
      assert TransmitterAt(TxStep(s, TxEvent.MoveFree), Next(first, s.ring.size), e - 1);
    }
  }

  lemma CopyInKeeps(s: Transmitter, first: nat, e: nat, p: Packet)
    requires TransmitterInv(s) && TransmitterAt(s, first, e)
    ensures TransmitterInv(TxStep(s, CopyIn(p)))
  {
    if s.phase.Idle? && s.ring.free != [] {
      FillKeeps(s.ring, first, e, p);
      assert InFlight(Fill(s.ring, p), e) == InFlight(s.ring, e);
      assert TransmitterAt(TxStep(s, CopyIn(p)), first, e);
    }
  }

  lemma SubmitKeeps(s: Transmitter, first: nat, e: nat)
    requires TransmitterInv(s) && TransmitterAt(s, first, e)
    ensures TransmitterInv(TxStep(s, TxEvent.SetActive))
  {
    if s.phase.Filled? {
      ActivateKeeps(s.ring, first, e);
      assert InFlight(Activate(s.ring), e) == InFlight(s.ring, e) + [s.phase.packet];
      assert TransmitterAt(TxStep(s, TxEvent.SetActive), first, e);
    }
  }

  lemma TxMoveBusyKeeps(s: Transmitter, first: nat, e: nat)
    requires TransmitterInv(s) && TransmitterAt(s, first, e)
    ensures TransmitterInv(TxStep(s, TxEvent.MoveBusy))
  {
    hide InvAt;
    TransmitterIsSound(s);
    assert TransmitterAt(TxStep(s, TxEvent.MoveBusy), first, e);
  }

  function TxRun(s: Transmitter, events: seq<TxEvent>): (r: Transmitter)
    requires TransmitterInv(s)
    ensures TransmitterInv(r) && r.ring.size == s.ring.size
    decreases |events|
  {
    if events == [] then s
    else
      TxStepKeeps(s, events[0]);
      TxRun(TxStep(s, events[0]), events[1..])
  }

  /** After any interleaving the core has sent the first submitted packets, unchanged and in order,
      and the others are in flight. */
  lemma SentInOrder(size: nat, events: seq<TxEvent>)
    requires size >= 1
    ensures TransmitterInv(Transmitter(FreshRing(size), Idle, [], []))
    ensures var s := TxRun(Transmitter(FreshRing(size), Idle, [], []), events);
            && |s.sent| <= |s.submitted| <= |s.sent| + size
            && s.sent == s.submitted[..|s.sent|]
            && s.ring.size == size && EachOnce(s.ring)
  {
    FreshIsSound(size);
    var start := Transmitter(FreshRing(size), Idle, [], []);
    assert TransmitterAt(start, 0, 0);
    var s := TxRun(start, events);
    var first: nat, e: nat :| TransmitterAt(s, first, e);
    ListedOnce(s.ring, s.phase, first, e);
  }

  /** A packet is sent exactly if some descriptor is enabled. */
  lemma PacketIsSentIff(s: Transmitter)
    requires TransmitterInv(s)
    ensures Numbered(s.ring) && s.ring.hw < s.ring.size
    ensures TxStep(s, Send).sent
            == if exists d :: 0 <= d < s.ring.size && s.ring.enabled[d] then s.sent + [s.ring.buffers[s.ring.hw]]
               else s.sent
  {
    TransmitterIsSound(s);
    var first: nat, e: nat :| TransmitterAt(s, first, e);
    CoreWorksIff(s.ring, s.phase, first, e);
  }

  /** From every state the core can send everything that was submitted. */
  lemma EverythingSent(s: Transmitter) returns (events: seq<TxEvent>)
    requires TransmitterInv(s)
    ensures var t := TxRun(s, events); t.sent == t.submitted == s.submitted
  {
    hide TransmitterAt;
    var first: nat, e: nat :| TransmitterAt(s, first, e);
    events := InFlightSent(s, first, e);
  }

  lemma {:induction false} InFlightSent(s: Transmitter, first: nat, e: nat) returns (events: seq<TxEvent>)
    requires TransmitterInv(s) && TransmitterAt(s, first, e)
    ensures var t := TxRun(s, events); t.sent == t.submitted == s.submitted
    decreases |Settled(s.ring, s.phase).used| - e
  {
    hide TransmitterAt, TransmitterInv, TxStep, Settled;
    SentUpTo(s, first, e);
    if e == |Settled(s.ring, s.phase).used| {
      return [];
    }
    OneIsSent(s, first, e);
    TxStepKeeps(s, Send);
    var rest := InFlightSent(TxStep(s, Send), first, e + 1);
    events := [Send] + rest;
    assert events[1..] == rest;
  }

  lemma SentUpTo(s: Transmitter, first: nat, e: nat)
    requires TransmitterAt(s, first, e)
    ensures e <= |Settled(s.ring, s.phase).used|
    ensures e == |Settled(s.ring, s.phase).used| ==> s.sent == s.submitted
  {
    hide IsRotation, Settled;
  }

  lemma OneIsSent(s: Transmitter, first: nat, e: nat)
    requires TransmitterInv(s) && TransmitterAt(s, first, e) && e < |Settled(s.ring, s.phase).used|
    ensures var t := TxStep(s, Send);
            && TransmitterAt(t, first, e + 1) && t.submitted == s.submitted
            && |Settled(t.ring, t.phase).used| == |Settled(s.ring, s.phase).used|
  {
    hide InvAt;
    var r := Settled(s.ring, s.phase);
    RingIsSound(s.ring, s.phase, first, e);
    InTable(r, first, e);
    var p := r.buffers[r.hw];
    FirstIsSent(r, first, e);
    InTable(Complete(r, p), first, e + 1);
    var rest := InFlight(Complete(r, p), e + 1);
    assert s.sent + ([p] + rest) == s.sent + [p] + rest;
  }

  /** grspw2_tx_desc_move_free_all. */
  function ReleaseAll(r: Ring): (r': Ring)
    requires Numbered(r)
    ensures Numbered(r') && r' == r.(used := r'.used, free := r'.free)
    decreases |r.used|
  {
    if r.used == [] || r.enabled[r.used[0]] then r else ReleaseAll(Release(r))
  }

  lemma {:induction false} ReleaseAllKeeps(r: Ring, first: nat, e: nat) returns (first': nat)
    requires InvAt(r, first, e)
    ensures InvAt(ReleaseAll(r), first', 0)
    ensures ReleaseAll(r) == r.(used := r.used[e..], free := r.free + r.used[..e])
    decreases |r.used|
  {
    hide IsRotation;
    if r.used == [] || r.enabled[r.used[0]] {
      assert e == 0;
      assert r.used[0..] == r.used && r.free + r.used[..0] == r.free;
      first' := first;
    } else {
      ReleaseKeeps(r, first, e);
      var r' := Release(r);
      first' := ReleaseAllKeeps(r', Next(first, r.size), e - 1);
      assert r'.used[e - 1..] == r.used[e..];
      assert r'.free + r'.used[..e - 1] == r.free + r.used[..e];
    }
  }

  /** grspw2_tx_desc_add_pkt on the table. */
  function AddPacket(r: Ring, p: Packet): Option<Ring>
    requires Numbered(r)
  {
    var r' := ReleaseAll(r);
    if r'.free == [] then None else Some(Activate(Fill(r', p)))
  }

  /** A packet is refused exactly when every descriptor is in flight, and the buffer it is copied
      to belongs to no descriptor in flight. */
  lemma AddPacketIs(r: Ring, first: nat, e: nat, p: Packet) returns (first': nat)
    requires InvAt(r, first, e)
    ensures AddPacket(r, p).None? <==> forall d :: 0 <= d < r.size ==> r.enabled[d]
    ensures AddPacket(r, p).Some? ==>
              var r' := AddPacket(r, p).value;
              && InvAt(r', first', 0) && InFlight(r', 0) == InFlight(r, e) + [p]
    ensures InvAt(ReleaseAll(r), first', 0) && InFlight(ReleaseAll(r), 0) == InFlight(r, e)
  {
    hide IsRotation;
    first' := ReleaseAllKeeps(r, first, e);
    var a := ReleaseAll(r);
    AllInFlight(r, first, e);
    if a.free != [] {
      FillKeeps(a, first', 0, p);
      ActivateKeeps(Fill(a, p), first', 0);
      var r' := Activate(Fill(a, p));
      assert forall i :: 0 <= i < |a.used| ==> r'.used[i] == a.used[i];
    }
  }

  lemma AllInFlight(r: Ring, first: nat, e: nat)
    requires InvAt(r, first, e)
    ensures (forall d :: 0 <= d < r.size ==> r.enabled[d]) <==> r.free == [] && e == 0
  {
    var order := r.used + r.free;
    RotationHasAll(order, first, r.size);
    if r.free == [] && e == 0 {
      forall d | 0 <= d < r.size ensures r.enabled[d] {
        assert d in order;
        assert order == r.used;
      }
    } else if r.free != [] {
      assert !r.enabled[r.free[0]];
    } else {
      assert !r.enabled[r.used[0]];
    }
  }

  /** Without the core between them, the accesses of grspw2_tx_desc_add_pkt submit its packet, or only
      release completed descriptors. */
  lemma {:induction false} AddPacketIsItsSteps(s: Transmitter, p: Packet) returns (events: seq<TxEvent>)
    requires TransmitterInv(s) && s.phase.Idle?
    requires Numbered(s.ring)
    ensures var added := AddPacket(s.ring, p);
            TxRun(s, events) == if added.None? then s.(ring := ReleaseAll(s.ring))
                                else s.(ring := added.value, submitted := s.submitted + [p])
    decreases |s.ring.used|
  {
    if s.ring.used == [] || s.ring.enabled[s.ring.used[0]] {
      events := SubmitIsItsSteps(s, p);
    } else {
      TxStepKeeps(s, TxEvent.MoveFree);
      var t := TxStep(s, TxEvent.MoveFree);
      TransmitterIsSound(t);
      var rest := AddPacketIsItsSteps(t, p);
      events := [TxEvent.MoveFree] + rest;
      assert events[1..] == rest;
    }
  }

  lemma SubmitIsItsSteps(s: Transmitter, p: Packet) returns (events: seq<TxEvent>)
    requires TransmitterInv(s) && s.phase.Idle?
    requires Numbered(s.ring)
    ensures TxRun(s, events) == if s.ring.free == [] then s
                                else s.(ring := Activate(Fill(s.ring, p)), submitted := s.submitted + [p])
  {
    if s.ring.free == [] {
      return [];
    }
    hide TransmitterInv;
    events := [CopyIn(p), TxEvent.SetActive, TxEvent.MoveBusy];
    TxStepKeeps(s, CopyIn(p));
    EnableIsItsSteps(TxStep(s, CopyIn(p)), events[1..]);
  }

  lemma EnableIsItsSteps(s: Transmitter, events: seq<TxEvent>)
    requires TransmitterInv(s) && s.phase.Filled? && events == [TxEvent.SetActive, TxEvent.MoveBusy]
    ensures s.ring.free != [] && Numbered(s.ring)
    ensures TxRun(s, events) == s.(ring := Activate(s.ring), phase := Idle, submitted := s.submitted + [s.phase.packet])
  {
    hide TransmitterInv;
    TransmitterIsSound(s);
    var s' := TxStep(s, TxEvent.SetActive);
    TxStepKeeps(s, TxEvent.SetActive);
    TxStepKeeps(s', TxEvent.MoveBusy);
    assert events[1..][1..] == [];
    assert TxRun(s, events) == TxRun(s', events[1..]) == TxStep(s', TxEvent.MoveBusy);
  }

  // ----- what breaks the invariant

  /** grspw2_rx_desc_clear_all: everything goes to the free list, enabled or not. */
  function ClearAll(r: Ring): Ring {
    r.(used := [], free := r.free + r.used)
  }

  /** Clearing the used list keeps the invariant exactly when no listed descriptor is enabled. */
  lemma ClearAllKeepsIff(r: Ring, first: nat, e: nat)
    requires InvAt(r, first, e)
    ensures (exists f: nat, k: nat :: InvAt(ClearAll(r), f, k))
            <==> forall i :: 0 <= i < |r.used| ==> !r.enabled[r.used[i]]
  {
    var c := ClearAll(r);
    if forall i :: 0 <= i < |r.used| ==> !r.enabled[r.used[i]] {
      assert e == |r.used|;
      var f := ReleaseAllKeeps(r, first, e);
      assert r.used[e..] == [] && r.used[..e] == r.used;
      assert InvAt(c, f, 0);
    } else {
      var i :| 0 <= i < |r.used| && r.enabled[r.used[i]];
      assert c.free[|r.free| + i] == r.used[i];
    }
  }

  /** A fresh table with one descriptor added is sound; clearing it leaves that descriptor enabled. */
  lemma ClearAllBreaks(size: nat)
    requires size >= 1
    ensures InvAt(AddDescriptor(FreshRing(size)), 0, 0)
    ensures !exists f: nat, k: nat :: InvAt(ClearAll(AddDescriptor(FreshRing(size))), f, k)
  {
    FreshIsSound(size);
    ActivateKeeps(FreshRing(size), 0, 0);
    var r := AddDescriptor(FreshRing(size));
    ClearAllKeepsIff(r, 0, 0);
    assert r.enabled[r.used[0]];
  }

  /** A core that wraps after descriptor number wrap - 1 of its own, where the table has size. */
  function CompleteIn(r: Ring, p: Packet, wrap: nat): Ring
    requires |r.enabled| == |r.buffers| == r.size && r.hw < r.size
  {
    Complete(r, p).(hw := Next(r.hw, wrap))
  }

  /** The driver never sets a wrap flag: behind the last descriptor of a table smaller than the
      core's the core leaves it, so only full tables go round. */
  lemma TableMustBeFull(r: Ring, first: nat, e: nat, p: Packet, wrap: nat)
    requires InvAt(r, first, e) && e < |r.used| && wrap >= r.size
    ensures r.hw < r.size
    ensures (exists f: nat, k: nat :: InvAt(CompleteIn(r, p, wrap), f, k)) <==> r.hw + 1 < r.size || wrap == r.size
  {
    CoreAtFirstEnabled(r, first, e);
    var c := CompleteIn(r, p, wrap);
    if r.hw + 1 < r.size || wrap == r.size {
      CompleteKeeps(r, first, e, p);
      assert InvAt(c, first, e + 1);
    } else if exists f: nat, k: nat :: InvAt(c, f, k) {
      var f: nat, k: nat :| InvAt(c, f, k);
      CoreAtFirstEnabled(c, f, k);
      assert false;
    }
  }
}
