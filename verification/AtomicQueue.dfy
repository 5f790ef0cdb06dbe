/** The multi-producer multi-consumer queue as interleaved atomic steps. Machine words are
    32 bits wide; the unbounded counters the tickets are kept in only name them, and every
    test the code makes is made on the words. */
module AtomicQueue {
  import opened PowersOfTwo
  import opened Division
  import opened SlotMap

  datatype SlotState = EMPTY | STORING | STORED | LOADING

  /** What a thread is about to do next. k is a local copy of head_ or tail_, t a ticket. */
  datatype Phase<T> =
    | Idle
    | PushChecking(k: nat, e: T)
    | PushSwapping(k: nat, e: T)
    | PushWaiting(t: nat, e: T)
    | PushStoring(t: nat, e: T)
    | PushReleasing(t: nat, e: T)
    | PopChecking(k: nat)
    | PopSwapping(k: nat)
    | PopWaiting(t: nat)
    | PopLoading(t: nat)
    | PopReleasing(t: nat, e: T)
  {
    predicate Pushing() { PushWaiting? || PushStoring? || PushReleasing? }
    predicate Popping() { PopWaiting? || PopLoading? || PopReleasing? }
    predicate Filling() { PushStoring? || PushReleasing? }
    predicate Draining() { PopLoading? || PopReleasing? }
    predicate HasTicket() { Pushing() || Popping() }
  }

  /** The calls an idle thread may begin. */
  datatype Call<T> = TryPush(arg: T) | Push(arg: T) | TryPop | Pop

  /** head and tail count every ticket issued; pushed[t] is the element of ticket t, received[t]
      what the consumer with ticket t got; stored[i] and loaded[i] are the histories of slot i. */
  datatype QueueState<T> = QueueState(
    head: nat, tail: nat, states: seq<SlotState>, elements: seq<T>, threads: seq<Phase<T>>,
    pushed: seq<T>, received: map<nat, T>, popped: seq<T>, stored: seq<seq<T>>, loaded: seq<seq<T>>)

  /** static_cast<int>(a - b) on 32-bit words */
  function SignedDifference(a: nat, b: nat): int {
    var d := (Word(a) + TWO32 - Word(b)) % TWO32;
    if d < TWO32 / 2 then d else d - TWO32
  }

  ghost predicate Sized<T>(c: Config, s: QueueState<T>) {
    && c.Valid()
    && |s.states| == |s.elements| == |s.stored| == |s.loaded| == c.Size()
    && |s.pushed| == s.head
  }

  function To<T>(s: QueueState<T>, p: nat, ph: Phase<T>): QueueState<T>
    requires p < |s.threads|
  {
    s.(threads := s.threads[p := ph])
  }

  function IssuePush<T>(s: QueueState<T>, p: nat, e: T): QueueState<T>
    requires p < |s.threads|
  {
    To(s, p, PushWaiting(s.head, e)).(head := s.head + 1, pushed := s.pushed + [e])
  }

  function IssuePop<T>(s: QueueState<T>, p: nat): QueueState<T>
    requires p < |s.threads|
  {
    To(s, p, PopWaiting(s.tail)).(tail := s.tail + 1)
  }

  /** One atomic step of thread p; an idle thread begins the given call. */
  function Step<T>(c: Config, s: QueueState<T>, p: nat, call: Call<T>): QueueState<T>
    requires Sized(c, s) && p < |s.threads|
  {
    var ph := s.threads[p];
    if ph.HasTicket() then
      WrapKeepsSlot(c, ph.t);
      var i := Slot(c, ph.t);
      match ph
      case PushWaiting(t, e) =>
        if s.states[i] == EMPTY then To(s, p, PushStoring(t, e)).(states := s.states[i := STORING]) else s
      case PushStoring(t, e) =>
        To(s, p, PushReleasing(t, e)).(elements := s.elements[i := e])
      case PushReleasing(t, e) =>
        To(s, p, Idle).(states := s.states[i := STORED], stored := s.stored[i := s.stored[i] + [e]])
      case PopWaiting(t) =>
        if s.states[i] == STORED then To(s, p, PopLoading(t)).(states := s.states[i := LOADING]) else s
      case PopLoading(t) =>
        To(s, p, PopReleasing(t, s.elements[i]))
      case PopReleasing(t, e) =>
        To(s, p, Idle).(states := s.states[i := EMPTY], loaded := s.loaded[i := s.loaded[i] + [e]],
                        received := s.received[t := e], popped := s.popped + [e])
    else
      match ph
      case PushChecking(k, e) =>
        To(s, p, if SignedDifference(k, s.tail) >= c.Size() then Idle else PushSwapping(k, e))
      case PushSwapping(k, e) =>
        if Word(s.head) == Word(k) then IssuePush(s, p, e) else To(s, p, PushChecking(s.head, e))
      case PopChecking(k) =>
        To(s, p, if SignedDifference(s.head, k) <= 0 then Idle else PopSwapping(k))
      case PopSwapping(k) =>
        if Word(s.tail) == Word(k) then IssuePop(s, p) else To(s, p, PopChecking(s.tail))
      case Idle =>
        match call
        case TryPush(e) => To(s, p, PushChecking(s.head, e))
        case Push(e) => IssuePush(s, p, e)
        case TryPop => To(s, p, PopChecking(s.tail))
        case Pop => IssuePop(s, p)
  }

  // ----- who touches a slot

  ghost predicate Touches<T>(c: Config, ph: Phase<T>, i: nat) {
    (ph.Filling() || ph.Draining()) && Slot(c, ph.t) == i
  }

  /** At most one thread touches a slot, and the state byte says which kind. */
  ghost predicate Exclusive<T>(c: Config, s: QueueState<T>)
    requires Sized(c, s)
  {
    && (forall p, i :: 0 <= p < |s.threads| && 0 <= i < |s.states| && Touches(c, s.threads[p], i) ==>
          s.states[i] == if s.threads[p].Filling() then STORING else LOADING)
    && (forall p, q, i :: 0 <= p < q < |s.threads| && 0 <= i < |s.states| ==>
          !(Touches(c, s.threads[p], i) && Touches(c, s.threads[q], i)))
  }

  /** A slot whose byte says it is being touched is being touched. */
  ghost predicate Attended<T>(c: Config, s: QueueState<T>)
    requires Sized(c, s)
  {
    forall i :: 0 <= i < |s.states| && (s.states[i].STORING? || s.states[i].LOADING?) ==>
      exists p :: 0 <= p < |s.threads| && Touches(c, s.threads[p], i)
  }

  /** A thread that leaves its slot, stays in it, or enters one whose byte says it is free. */
  lemma ExclusiveAfter<T>(c: Config, s: QueueState<T>, t: QueueState<T>, p: nat, ph: Phase<T>, i: nat, st: SlotState)
    requires Sized(c, s) && Sized(c, t) && Exclusive(c, s) && p < |s.threads| && i < |s.states|
    requires t.threads == s.threads[p := ph] && t.states == s.states[i := st]
    requires Touches(c, s.threads[p], i) || s.states[i].EMPTY? || s.states[i].STORED?
    requires forall j :: Touches(c, ph, j) ==> j == i && st == if ph.Filling() then STORING else LOADING
    ensures Exclusive(c, t)
  {
    hide Slot, Pow2;
    assert forall q :: 0 <= q < |s.threads| && q != p ==> !Touches(c, s.threads[q], i);
  }

  lemma ExclusiveWithoutSlot<T>(c: Config, s: QueueState<T>, t: QueueState<T>, p: nat, ph: Phase<T>)
    requires Sized(c, s) && Sized(c, t) && Exclusive(c, s) && p < |s.threads|
    requires t.threads == s.threads[p := ph] && t.states == s.states && forall j :: !Touches(c, ph, j)
    ensures Exclusive(c, t)
  {
    hide Slot, Pow2;
  }

  lemma ExclusiveStep<T>(c: Config, s: QueueState<T>, p: nat, call: Call<T>)
    requires Sized(c, s) && Exclusive(c, s) && p < |s.threads|
    ensures Sized(c, Step(c, s, p, call)) && Exclusive(c, Step(c, s, p, call))
  {
    hide Slot, SignedDifference, Word, Pow2, Exclusive;
    var ph, t := s.threads[p], Step(c, s, p, call);
    if ph.Filling() || ph.Draining() || (ph.HasTicket() && t.threads[p] != ph) {
      WrapKeepsSlot(c, ph.t);
      var i := Slot(c, ph.t);
      OwnState(c, s, p);
      assert t.states == s.states[i := t.states[i]];
      assert t.threads == s.threads[p := t.threads[p]];
      ExclusiveAfter(c, s, t, p, t.threads[p], i, t.states[i]);
    } else {
      if ph.HasTicket() { WrapKeepsSlot(c, ph.t); }
      assert t.threads == s.threads[p := t.threads[p]];
      ExclusiveWithoutSlot(c, s, t, p, t.threads[p]);
    }
  }

  lemma OwnState<T>(c: Config, s: QueueState<T>, p: nat)
    requires Sized(c, s) && Exclusive(c, s) && p < |s.threads| && s.threads[p].HasTicket()
    requires Slot(c, s.threads[p].t) < |s.states|
    ensures var ph, i := s.threads[p], Slot(c, s.threads[p].t);
            && (ph.Filling() ==> s.states[i] == STORING) && (ph.Draining() ==> s.states[i] == LOADING)
            && (ph.Filling() || ph.Draining() ==> Touches(c, ph, i))
  {
    hide Slot, Pow2;
    var ph, i := s.threads[p], Slot(c, s.threads[p].t);
    assert ph.Filling() || ph.Draining() ==> Touches(c, ph, i);
  }

  lemma AttendedStep<T>(c: Config, s: QueueState<T>, p: nat, call: Call<T>)
    requires Sized(c, s) && Exclusive(c, s) && Attended(c, s) && p < |s.threads|
    ensures Sized(c, Step(c, s, p, call)) && Attended(c, Step(c, s, p, call))
  {
    hide Slot, SignedDifference, Word, Pow2;
    var ph, t := s.threads[p], Step(c, s, p, call);
    if ph.HasTicket() { WrapKeepsSlot(c, ph.t); }
    forall i | 0 <= i < |t.states| && (t.states[i].STORING? || t.states[i].LOADING?)
      ensures exists q :: 0 <= q < |t.threads| && Touches(c, t.threads[q], i)
    {
      if Touches(c, t.threads[p], i) {
      } else {
        assert s.states[i] == t.states[i];
        var q :| 0 <= q < |s.threads| && Touches(c, s.threads[q], i);
        assert Touches(c, t.threads[q], i);
      }
    }
  }

  // ----- what was loaded from a slot is a prefix of what was stored to it

  ghost predicate SlotHistory<T>(state: SlotState, element: T, stored: seq<T>, loaded: seq<T>) {
    if state == EMPTY || state == STORING then loaded == stored else stored == loaded + [element]
  }

  ghost predicate History<T>(c: Config, s: QueueState<T>)
    requires Sized(c, s)
  {
    && (forall i :: 0 <= i < |s.states| ==> SlotHistory(s.states[i], s.elements[i], s.stored[i], s.loaded[i]))
    && (forall p, i :: 0 <= p < |s.threads| && 0 <= i < |s.states| && Touches(c, s.threads[p], i) ==>
          s.threads[p].PushReleasing? || s.threads[p].PopReleasing? ==> s.elements[i] == s.threads[p].e)
  }

  lemma HistoryStep<T>(c: Config, s: QueueState<T>, p: nat, call: Call<T>)
    requires Sized(c, s) && Exclusive(c, s) && History(c, s) && p < |s.threads|
    ensures Sized(c, Step(c, s, p, call)) && History(c, Step(c, s, p, call))
  {
    hide Slot, SignedDifference, Word, Pow2;
    var ph, t := s.threads[p], Step(c, s, p, call);
    if ph.HasTicket() {
      WrapKeepsSlot(c, ph.t);
      var i := Slot(c, ph.t);
      assert SlotHistory(s.states[i], s.elements[i], s.stored[i], s.loaded[i]);
      if ph.Filling() || ph.Draining() {
        assert Touches(c, ph, i);
        assert forall q :: 0 <= q < |s.threads| && q != p ==> !Touches(c, s.threads[q], i);
      }
    }
  }

  // ----- tickets

  ghost predicate SameKind<T>(a: Phase<T>, b: Phase<T>) {
    (a.Pushing() && b.Pushing()) || (a.Popping() && b.Popping())
  }

  /** Tickets in flight are issued ones, no two producers or consumers hold the same, and a
      producer's element is the one its ticket stands for. */
  ghost predicate Tickets<T>(s: QueueState<T>) {
    && |s.pushed| == s.head
    && (forall p :: 0 <= p < |s.threads| && s.threads[p].Pushing() ==>
          s.threads[p].t < s.head && s.pushed[s.threads[p].t] == s.threads[p].e)
    && (forall p :: 0 <= p < |s.threads| && s.threads[p].Popping() ==> s.threads[p].t < s.tail)
    && (forall p, q :: 0 <= p < q < |s.threads| && SameKind(s.threads[p], s.threads[q]) ==>
          s.threads[p].t != s.threads[q].t)
  }

  /** A thread that goes on, without a ticket or with the one it had. */
  lemma TicketsKept<T>(s: QueueState<T>, t: QueueState<T>, p: nat, ph: Phase<T>)
    requires Tickets(s) && p < |s.threads| && t.threads == s.threads[p := ph]
    requires t.head == s.head && t.tail == s.tail && t.pushed == s.pushed
    requires ph.HasTicket() ==> SameKind(ph, s.threads[p]) && ph.t == s.threads[p].t
    requires ph.Pushing() ==> ph.e == s.threads[p].e
    ensures Tickets(t)
  {
    assert forall q :: 0 <= q < |t.threads| && q != p ==> t.threads[q] == s.threads[q];
  }

  lemma TicketsAfterPush<T>(s: QueueState<T>, p: nat, e: T)
    requires Tickets(s) && p < |s.threads| && !s.threads[p].HasTicket()
    ensures Tickets(IssuePush(s, p, e))
  {
    var t := IssuePush(s, p, e);
    assert forall q :: 0 <= q < |t.threads| && q != p ==> t.threads[q] == s.threads[q];
  }

  lemma TicketsAfterPop<T>(s: QueueState<T>, p: nat)
    requires Tickets(s) && p < |s.threads| && !s.threads[p].HasTicket()
    ensures Tickets(IssuePop(s, p))
  {
    var t := IssuePop(s, p);
    assert forall q :: 0 <= q < |t.threads| && q != p ==> t.threads[q] == s.threads[q];
  }

  lemma TicketsStep<T>(c: Config, s: QueueState<T>, p: nat, call: Call<T>)
    requires Sized(c, s) && Tickets(s) && p < |s.threads|
    ensures Tickets(Step(c, s, p, call))
  {
    hide Slot, SignedDifference, Word, Pow2, Tickets;
    var ph, t := s.threads[p], Step(c, s, p, call);
    if ph.HasTicket() {
      WrapKeepsSlot(c, ph.t);
      assert t.threads == s.threads[p := t.threads[p]];
      TicketsKept(s, t, p, t.threads[p]);
    } else if t.threads[p].PushWaiting? {
      TicketsAfterPush(s, p, t.threads[p].e);
    } else if t.threads[p].PopWaiting? {
      TicketsAfterPop(s, p);
    } else {
      TicketsKept(s, t, p, t.threads[p]);
    }
  }

  // ----- per-slot counts

  ghost function PushersAt<T>(c: Config, threads: seq<Phase<T>>, i: nat): set<nat> {
    set p: nat | p < |threads| && threads[p].Pushing() && Slot(c, threads[p].t) == i
  }

  ghost function PoppersAt<T>(c: Config, threads: seq<Phase<T>>, i: nat): set<nat> {
    set p: nat | p < |threads| && threads[p].Popping() && Slot(c, threads[p].t) == i
  }

  /** Every producer ticket issued for a slot has been stored to it or is in flight. */
  ghost predicate PushCounts<T>(c: Config, s: QueueState<T>)
    requires Sized(c, s)
  {
    forall i :: 0 <= i < |s.states| ==> Count(c, s.head, i) == |s.stored[i]| + |PushersAt(c, s.threads, i)|
  }

  /** Every consumer ticket issued for a slot has been loaded from it or is in flight. */
  ghost predicate PopCounts<T>(c: Config, s: QueueState<T>)
    requires Sized(c, s)
  {
    forall i :: 0 <= i < |s.states| ==> Count(c, s.tail, i) == |s.loaded[i]| + |PoppersAt(c, s.threads, i)|
  }

  lemma WithoutOne(a: set<nat>, p: nat)
    ensures |a| == |a - {p}| + (if p in a then 1 else 0)
  {
    assert a == if p in a then a - {p} + {p} else a - {p};
  }

  lemma PushersAfter<T>(c: Config, threads: seq<Phase<T>>, p: nat, ph: Phase<T>, i: nat)
    requires p < |threads|
    ensures |PushersAt(c, threads[p := ph], i)| - (if ph.Pushing() && Slot(c, ph.t) == i then 1 else 0)
         == |PushersAt(c, threads, i)| - (if threads[p].Pushing() && Slot(c, threads[p].t) == i then 1 else 0)
  {
    hide Slot;
    var a, b := PushersAt(c, threads, i), PushersAt(c, threads[p := ph], i);
    assert a - {p} == b - {p};
    WithoutOne(a, p);
    WithoutOne(b, p);
  }

  lemma PoppersAfter<T>(c: Config, threads: seq<Phase<T>>, p: nat, ph: Phase<T>, i: nat)
    requires p < |threads|
    ensures |PoppersAt(c, threads[p := ph], i)| - (if ph.Popping() && Slot(c, ph.t) == i then 1 else 0)
         == |PoppersAt(c, threads, i)| - (if threads[p].Popping() && Slot(c, threads[p].t) == i then 1 else 0)
  {
    hide Slot;
    var a, b := PoppersAt(c, threads, i), PoppersAt(c, threads[p := ph], i);
    assert a - {p} == b - {p};
    WithoutOne(a, p);
    WithoutOne(b, p);
  }

  /** What a step does to the producers: it issues the next ticket, or stores the element of the
      thread's ticket, or keeps tickets and stores as they are. */
  ghost predicate PushEffect<T>(c: Config, s: QueueState<T>, t: QueueState<T>, p: nat) {
    && Sized(c, s) && Sized(c, t) && p < |s.threads| == |t.threads|
    && var ph, ph' := s.threads[p], t.threads[p];
    && t.threads == s.threads[p := ph']
    && if ph.PushReleasing? then
         var i := Slot(c, ph.t);
         i < |s.stored| && ph' == Idle && t.stored == s.stored[i := s.stored[i] + [ph.e]] && t.head == s.head
       else
         && t.stored == s.stored
         && if ph'.PushWaiting? && !ph.HasTicket() then
              ph'.t == s.head && t.head == s.head + 1
            else
              t.head == s.head && (ph'.Pushing() <==> ph.Pushing()) && (ph.Pushing() ==> ph'.t == ph.t)
  }

  ghost predicate PopEffect<T>(c: Config, s: QueueState<T>, t: QueueState<T>, p: nat) {
    && Sized(c, s) && Sized(c, t) && p < |s.threads| == |t.threads|
    && var ph, ph' := s.threads[p], t.threads[p];
    && t.threads == s.threads[p := ph']
    && if ph.PopReleasing? then
         var i := Slot(c, ph.t);
         i < |s.loaded| && ph' == Idle && t.loaded == s.loaded[i := s.loaded[i] + [ph.e]] && t.tail == s.tail
       else
         && t.loaded == s.loaded
         && if ph'.PopWaiting? && !ph.HasTicket() then
              ph'.t == s.tail && t.tail == s.tail + 1
            else
              t.tail == s.tail && (ph'.Popping() <==> ph.Popping()) && (ph.Popping() ==> ph'.t == ph.t)
  }

  lemma StepEffects<T>(c: Config, s: QueueState<T>, p: nat, call: Call<T>)
    requires Sized(c, s) && p < |s.threads|
    ensures PushEffect(c, s, Step(c, s, p, call), p) && PopEffect(c, s, Step(c, s, p, call), p)
  {
    hide Slot, SignedDifference, Word, Pow2;
    if s.threads[p].HasTicket() { WrapKeepsSlot(c, s.threads[p].t); }
    var t := Step(c, s, p, call);
    assert t.threads == s.threads[p := t.threads[p]];
  }

  lemma PushCountsStep<T>(c: Config, s: QueueState<T>, p: nat, call: Call<T>)
    requires Sized(c, s) && PushCounts(c, s) && p < |s.threads|
    ensures Sized(c, Step(c, s, p, call)) && PushCounts(c, Step(c, s, p, call))
  {
    hide Slot, Step, Pow2, PushersAt, PopEffect;
    StepEffects(c, s, p, call);
    var t := Step(c, s, p, call);
    forall i | 0 <= i < |t.states|
      ensures Count(c, t.head, i) == |t.stored[i]| + |PushersAt(c, t.threads, i)|
    {
      PushersAfter(c, s.threads, p, t.threads[p], i);
    }
  }

  lemma PopCountsStep<T>(c: Config, s: QueueState<T>, p: nat, call: Call<T>)
    requires Sized(c, s) && PopCounts(c, s) && p < |s.threads|
    ensures Sized(c, Step(c, s, p, call)) && PopCounts(c, Step(c, s, p, call))
  {
    hide Slot, Step, Pow2, PoppersAt, PushEffect;
    StepEffects(c, s, p, call);
    var t := Step(c, s, p, call);
    forall i | 0 <= i < |t.states|
      ensures Count(c, t.tail, i) == |t.loaded[i]| + |PoppersAt(c, t.threads, i)|
    {
      PoppersAfter(c, s.threads, p, t.threads[p], i);
    }
  }

  // ----- elements are conserved

  ghost function SlotHas<T>(st: SlotState, e: T, x: T): nat {
    if (st.STORED? || st.LOADING?) && e == x then 1 else 0
  }

  ghost function ThreadHas<T>(ph: Phase<T>, x: T): nat {
    if ph.Pushing() && ph.e == x then 1 else 0
  }

  /** How often x is in a stored or loading slot. */
  ghost function InSlots<T>(states: seq<SlotState>, elements: seq<T>, x: T): nat
    requires |states| == |elements|
  {
    if states == [] then 0 else InSlots(states[1..], elements[1..], x) + SlotHas(states[0], elements[0], x)
  }

  /** How often x is held by a producer that has a ticket but has not released its slot. */
  ghost function InFlight<T>(threads: seq<Phase<T>>, x: T): nat {
    if threads == [] then 0 else InFlight(threads[1..], x) + ThreadHas(threads[0], x)
  }

  /** Every element pushed was popped, is stored, or is in flight: as often as it was pushed. */
  ghost predicate Conserved<T(!new)>(c: Config, s: QueueState<T>)
    requires Sized(c, s)
  {
    forall x :: ConservedFor(c, s, x)
  }

  ghost predicate ConservedFor<T>(c: Config, s: QueueState<T>, x: T)
    requires Sized(c, s)
  {
    multiset(s.pushed)[x] == multiset(s.popped)[x] + InSlots(s.states, s.elements, x) + InFlight(s.threads, x)
  }

  lemma {:induction false} InSlotsAfter<T>(states: seq<SlotState>, elements: seq<T>, i: nat, st: SlotState, e: T, x: T)
    requires |states| == |elements| && i < |states|
    ensures InSlots(states[i := st], elements[i := e], x) + SlotHas(states[i], elements[i], x)
         == InSlots(states, elements, x) + SlotHas(st, e, x)
  {
    if i == 0 {
      assert states[0 := st][1..] == states[1..] && elements[0 := e][1..] == elements[1..];
    } else {
      InSlotsAfter(states[1..], elements[1..], i - 1, st, e, x);
      assert states[i := st][1..] == states[1..][i - 1 := st] && elements[i := e][1..] == elements[1..][i - 1 := e];
    }
  }

  lemma {:induction false} InFlightAfter<T>(threads: seq<Phase<T>>, p: nat, ph: Phase<T>, x: T)
    requires p < |threads|
    ensures InFlight(threads[p := ph], x) + ThreadHas(threads[p], x) == InFlight(threads, x) + ThreadHas(ph, x)
  {
    if p == 0 {
      assert threads[0 := ph][1..] == threads[1..];
    } else {
      InFlightAfter(threads[1..], p - 1, ph, x);
      assert threads[p := ph][1..] == threads[1..][p - 1 := ph];
    }
  }

  lemma ConservedStep<T(!new)>(c: Config, s: QueueState<T>, p: nat, call: Call<T>)
    requires Sized(c, s) && Exclusive(c, s) && History(c, s) && Conserved(c, s) && p < |s.threads|
    ensures Sized(c, Step(c, s, p, call)) && Conserved(c, Step(c, s, p, call))
    ensures s.threads[p] == Idle && call.Push? ==> Step(c, s, p, call).pushed == s.pushed + [call.arg]
  {
    hide Slot, Step, InSlots, InFlight, Exclusive, History;
    StepKeepsSizes(c, s, p, call);
    var t := Step(c, s, p, call);
    PushCases(c, s, Event(p, call), t);
    forall x ensures ConservedFor(c, t, x) {
      assert ConservedFor(c, s, x);
      if s.threads[p].Pushing() {
        ConservedWhilePushing(c, s, p, call, x);
      } else if s.threads[p].Popping() {
        ConservedWhilePopping(c, s, p, call, x);
      } else {
        ConservedWithoutTicket(c, s, p, call, x);
      }
    }
  }

  lemma StepKeepsSizes<T>(c: Config, s: QueueState<T>, p: nat, call: Call<T>)
    requires Sized(c, s) && p < |s.threads|
    ensures Sized(c, Step(c, s, p, call)) && |Step(c, s, p, call).threads| == |s.threads|
  {
    hide Slot, SignedDifference, Word, Pow2;
    if s.threads[p].HasTicket() { WrapKeepsSlot(c, s.threads[p].t); }
  }

  /** What a thread that touches its slot finds there. */
  lemma OwnSlot<T>(c: Config, s: QueueState<T>, p: nat)
    requires Sized(c, s) && Exclusive(c, s) && History(c, s) && p < |s.threads| && s.threads[p].HasTicket()
    ensures var ph, i := s.threads[p], Slot(c, s.threads[p].t);
            && i < |s.states|
            && (ph.Filling() ==> s.states[i] == STORING) && (ph.Draining() ==> s.states[i] == LOADING)
            && (ph.PushReleasing? || ph.PopReleasing? ==> s.elements[i] == ph.e)
  {
    WrapKeepsSlot(c, s.threads[p].t);
    hide Slot;
    var ph, i := s.threads[p], Slot(c, s.threads[p].t);
    assert ph.Filling() || ph.Draining() ==> Touches(c, ph, i);
  }

  lemma ConservedWithoutTicket<T>(c: Config, s: QueueState<T>, p: nat, call: Call<T>, x: T)
    requires Sized(c, s) && ConservedFor(c, s, x) && p < |s.threads| && !s.threads[p].HasTicket()
    ensures Sized(c, Step(c, s, p, call)) && ConservedFor(c, Step(c, s, p, call), x)
  {
    hide Slot, SignedDifference, Word, Pow2, InSlots, InFlight, ConservedFor;
    var t := Step(c, s, p, call);
    ConservedWithoutSlot(c, s, t, p, t.threads[p], x);
  }

  lemma ConservedWithoutSlot<T>(c: Config, s: QueueState<T>, t: QueueState<T>, p: nat, ph: Phase<T>, x: T)
    requires Sized(c, s) && Sized(c, t) && ConservedFor(c, s, x) && p < |s.threads| && !s.threads[p].HasTicket()
    requires t.threads == s.threads[p := ph] && t.states == s.states && t.elements == s.elements && t.popped == s.popped
    requires t.pushed == if ph.Pushing() then s.pushed + [ph.e] else s.pushed
    ensures ConservedFor(c, t, x)
  {
    hide InSlots, InFlight;
    InFlightAfter(s.threads, p, ph, x);
  }

  lemma ConservedWhilePushing<T>(c: Config, s: QueueState<T>, p: nat, call: Call<T>, x: T)
    requires Sized(c, s) && Exclusive(c, s) && History(c, s) && ConservedFor(c, s, x)
    requires p < |s.threads| && s.threads[p].Pushing()
    ensures Sized(c, Step(c, s, p, call)) && ConservedFor(c, Step(c, s, p, call), x)
  {
    hide Slot, SignedDifference, Word, Pow2, InSlots, InFlight, Exclusive, History;
    var ph, t := s.threads[p], Step(c, s, p, call);
    WrapKeepsSlot(c, ph.t);
    var i := Slot(c, ph.t);
    OwnSlot(c, s, p);
    assert t.threads == s.threads[p := t.threads[p]];
    assert t.states == s.states[i := t.states[i]];
    assert t.elements == s.elements[i := t.elements[i]];
    InFlightAfter(s.threads, p, t.threads[p], x);
    InSlotsAfter(s.states, s.elements, i, t.states[i], t.elements[i], x);
  }

  lemma ConservedWhilePopping<T>(c: Config, s: QueueState<T>, p: nat, call: Call<T>, x: T)
    requires Sized(c, s) && Exclusive(c, s) && History(c, s) && ConservedFor(c, s, x)
    requires p < |s.threads| && s.threads[p].Popping()
    ensures Sized(c, Step(c, s, p, call)) && ConservedFor(c, Step(c, s, p, call), x)
  {
    hide Slot, SignedDifference, Word, Pow2, InSlots, InFlight, Exclusive, History;
    var ph, t := s.threads[p], Step(c, s, p, call);
    WrapKeepsSlot(c, ph.t);
    var i := Slot(c, ph.t);
    OwnSlot(c, s, p);
    assert t.threads == s.threads[p := t.threads[p]];
    assert t.states == s.states[i := t.states[i]];
    assert t.elements == s.elements[i := t.elements[i]];
    InFlightAfter(s.threads, p, t.threads[p], x);
    InSlotsAfter(s.states, s.elements, i, t.states[i], t.elements[i], x);
  }

  // ----- every reachable state

  ghost predicate Inv<T(!new)>(c: Config, s: QueueState<T>) {
    && Sized(c, s) && Exclusive(c, s) && Attended(c, s) && History(c, s) && Tickets(s)
    && PushCounts(c, s) && PopCounts(c, s) && Conserved(c, s)
  }

  function Init<T>(c: Config, threads: nat, blank: T): QueueState<T> {
    QueueState(0, 0, seq(c.Size(), _ => EMPTY), seq(c.Size(), _ => blank), seq(threads, _ => Idle),
          [], map[], [], seq(c.Size(), _ => []), seq(c.Size(), _ => []))
  }

  lemma {:induction false} NothingInFlight<T>(threads: seq<Phase<T>>, x: T)
    requires forall p :: 0 <= p < |threads| ==> threads[p] == Idle
    ensures InFlight(threads, x) == 0
  {
    if threads != [] { NothingInFlight(threads[1..], x); }
  }

  lemma {:induction false} NothingInSlots<T>(states: seq<SlotState>, elements: seq<T>, x: T)
    requires |states| == |elements| && forall i :: 0 <= i < |states| ==> states[i] == EMPTY
    ensures InSlots(states, elements, x) == 0
  {
    if states != [] { NothingInSlots(states[1..], elements[1..], x); }
  }

  lemma InitHolds<T(!new)>(c: Config, threads: nat, blank: T)
    requires c.Valid()
    ensures Inv(c, Init(c, threads, blank))
  {
    hide Slot, Pow2;
    var s := Init(c, threads, blank);
    forall i ensures PushersAt(c, s.threads, i) == {} && PoppersAt(c, s.threads, i) == {} {}
    forall x ensures ConservedFor(c, s, x) {
      NothingInFlight(s.threads, x);
      NothingInSlots(s.states, s.elements, x);
    }
  }

  lemma InvStep<T(!new)>(c: Config, s: QueueState<T>, p: nat, call: Call<T>)
    requires Inv(c, s) && p < |s.threads|
    ensures Inv(c, Step(c, s, p, call)) && |Step(c, s, p, call).threads| == |s.threads|
  {
    hide Step, Exclusive, Attended, History, Tickets, PushCounts, PopCounts, Conserved;
    StepKeepsSizes(c, s, p, call);
    ExclusiveStep(c, s, p, call);
    AttendedStep(c, s, p, call);
    HistoryStep(c, s, p, call);
    TicketsStep(c, s, p, call);
    PushCountsStep(c, s, p, call);
    PopCountsStep(c, s, p, call);
    ConservedStep(c, s, p, call);
  }

  // ----- while no two producers, and no two consumers, are a lap apart

  ghost predicate OneLap<T>(c: Config, s: QueueState<T>) {
    forall p, q :: 0 <= p < |s.threads| && 0 <= q < |s.threads| && SameKind(s.threads[p], s.threads[q]) ==>
      s.threads[p].t < s.threads[q].t + c.Size()
  }

  function Lap(c: Config, t: nat): nat {
    Quotient(t, c.Size())
  }

  /** A producer's ticket is the next one of its slot. */
  ghost predicate PushersInOrder<T>(c: Config, s: QueueState<T>)
    requires Sized(c, s)
  {
    forall p, i ::
        0 <= p < |s.threads| && 0 <= i < |s.states| && s.threads[p].Pushing() && Slot(c, s.threads[p].t) == i ==>
      Lap(c, s.threads[p].t) == |s.stored[i]|
  }

  ghost predicate PoppersInOrder<T>(c: Config, s: QueueState<T>)
    requires Sized(c, s)
  {
    forall p, i ::
        0 <= p < |s.threads| && 0 <= i < |s.states| && s.threads[p].Popping() && Slot(c, s.threads[p].t) == i ==>
      Lap(c, s.threads[p].t) == |s.loaded[i]|
  }

  ghost predicate StoredAs<T>(c: Config, t: nat, stored: seq<T>, e: T) {
    Lap(c, t) < |stored| ==> stored[Lap(c, t)] == e
  }

  /** What is stored to a slot in some lap is what was pushed with the ticket of that lap. */
  ghost predicate SlotsInOrder<T>(c: Config, s: QueueState<T>)
    requires Sized(c, s)
  {
    forall t, i :: 0 <= t < |s.pushed| && 0 <= i < |s.states| && Slot(c, t) == i ==>
        StoredAs(c, t, s.stored[i], s.pushed[t])
  }

  /** Consumers got, or are about to return, what was pushed with their ticket. */
  ghost predicate Matched<T>(s: QueueState<T>) {
    && (forall t :: t in s.received ==> t < |s.pushed| && s.received[t] == s.pushed[t])
    && (forall p :: 0 <= p < |s.threads| && s.threads[p].PopReleasing? ==>
          s.threads[p].t < |s.pushed| && s.threads[p].e == s.pushed[s.threads[p].t])
  }

  ghost predicate InOrder<T>(c: Config, s: QueueState<T>) {
    Sized(c, s) && PushersInOrder(c, s) && PoppersInOrder(c, s) && SlotsInOrder(c, s) && Matched(s)
  }

  /** Within one lap a slot has at most one producer in flight, and none when the next ticket
      issued for it is in flight too. */
  lemma AlonePushing<T>(c: Config, s: QueueState<T>, p: nat, q: nat)
    requires c.Valid() && OneLap(c, s) && Tickets(s) && p < |s.threads| && q < |s.threads| && p != q
    requires SameKind(s.threads[p], s.threads[q])
    ensures Slot(c, s.threads[p].t) != Slot(c, s.threads[q].t)
  {
    hide Slot, Pow2;
    assert SameKind(s.threads[q], s.threads[p]);
    if Slot(c, s.threads[p].t) == Slot(c, s.threads[q].t) {
      SameLap(c, s.threads[p].t, s.threads[q].t);
    }
  }

  /** A fresh ticket that keeps everyone within a lap is the next of its slot. */
  lemma FreshPushIsNext<T>(c: Config, s: QueueState<T>, t: QueueState<T>, p: nat)
    requires Sized(c, s) && PushCounts(c, s) && Tickets(t) && OneLap(c, t)
    requires p < |s.threads| == |t.threads| && !s.threads[p].HasTicket()
    requires t.threads == s.threads[p := t.threads[p]] && t.threads[p].PushWaiting? && t.threads[p].t == s.head
    ensures Slot(c, s.head) < |s.stored| && Lap(c, s.head) == |s.stored[Slot(c, s.head)]|
  {
    hide Slot, Pow2;
    var i := Slot(c, s.head);
    WrapKeepsSlot(c, s.head);
    CountOfTicket(c, s.head);
    forall q | q in PushersAt(c, s.threads, i) ensures false {
      AlonePushing(c, t, q, p);
    }
    assert PushersAt(c, s.threads, i) == {};
  }

  lemma FreshPopIsNext<T>(c: Config, s: QueueState<T>, t: QueueState<T>, p: nat)
    requires Sized(c, s) && PopCounts(c, s) && Tickets(t) && OneLap(c, t)
    requires p < |s.threads| == |t.threads| && !s.threads[p].HasTicket()
    requires t.threads == s.threads[p := t.threads[p]] && t.threads[p].PopWaiting? && t.threads[p].t == s.tail
    ensures Slot(c, s.tail) < |s.loaded| && Lap(c, s.tail) == |s.loaded[Slot(c, s.tail)]|
  {
    hide Slot, Pow2;
    var i := Slot(c, s.tail);
    WrapKeepsSlot(c, s.tail);
    CountOfTicket(c, s.tail);
    forall q | q in PoppersAt(c, s.threads, i) ensures false {
      AlonePushing(c, t, q, p);
    }
    assert PoppersAt(c, s.threads, i) == {};
  }

  lemma PushersInOrderStep<T>(c: Config, s: QueueState<T>, p: nat, call: Call<T>)
    requires Sized(c, s) && Tickets(s) && PushCounts(c, s) && OneLap(c, s) && p < |s.threads|
    requires OneLap(c, Step(c, s, p, call)) && PushersInOrder(c, s)
    ensures Sized(c, Step(c, s, p, call)) && PushersInOrder(c, Step(c, s, p, call))
  {
    StepEffects(c, s, p, call);
    TicketsStep(c, s, p, call);
    hide Slot, Step, Pow2, OneLap, Tickets, PushCounts, Lap, PopEffect;
    var ph, t := s.threads[p], Step(c, s, p, call);
    if ph.HasTicket() {
      WrapKeepsSlot(c, ph.t);
      if ph.PushReleasing? {
        forall q | 0 <= q < |s.threads| && q != p && s.threads[q].Pushing()
          ensures Slot(c, s.threads[q].t) != Slot(c, ph.t)
        {
          AlonePushing(c, s, q, p);
        }
      }
    } else if t.threads[p].PushWaiting? {
      FreshPushIsNext(c, s, t, p);
    }
  }

  lemma PoppersInOrderStep<T>(c: Config, s: QueueState<T>, p: nat, call: Call<T>)
    requires Sized(c, s) && Tickets(s) && PopCounts(c, s) && OneLap(c, s) && p < |s.threads|
    requires OneLap(c, Step(c, s, p, call)) && PoppersInOrder(c, s)
    ensures Sized(c, Step(c, s, p, call)) && PoppersInOrder(c, Step(c, s, p, call))
  {
    StepEffects(c, s, p, call);
    TicketsStep(c, s, p, call);
    hide Slot, Step, Pow2, OneLap, Tickets, PopCounts, Lap, PushEffect;
    var ph, t := s.threads[p], Step(c, s, p, call);
    if ph.HasTicket() {
      WrapKeepsSlot(c, ph.t);
      if ph.PopReleasing? {
        forall q | 0 <= q < |s.threads| && q != p && s.threads[q].Popping()
          ensures Slot(c, s.threads[q].t) != Slot(c, ph.t)
        {
          AlonePushing(c, s, q, p);
        }
      }
    } else if t.threads[p].PopWaiting? {
      FreshPopIsNext(c, s, t, p);
    }
  }

  lemma SlotsInOrderStep<T>(c: Config, s: QueueState<T>, p: nat, call: Call<T>)
    requires Sized(c, s) && Tickets(s) && PushCounts(c, s) && PushersInOrder(c, s) && SlotsInOrder(c, s)
    requires p < |s.threads|
    ensures Sized(c, Step(c, s, p, call)) && SlotsInOrder(c, Step(c, s, p, call))
  {
    StepKeepsSizes(c, s, p, call);
    hide Slot, SignedDifference, Word, Pow2, PushCounts, StoredAs, Lap;
    var ph, t := s.threads[p], Step(c, s, p, call);
    if ph.HasTicket() { WrapKeepsSlot(c, ph.t); }
    forall u, i | 0 <= u < |t.pushed| && 0 <= i < |t.states| && Slot(c, u) == i
      ensures StoredAs(c, u, t.stored[i], t.pushed[u])
    {
      if u == |s.pushed| {
        NotYetStored(c, s, u);
        StoredLater(c, u, s.stored[i], t.pushed[u]);
      } else if ph.PushReleasing? && i == Slot(c, ph.t) {
        OneTicketPerLap(c, u, ph.t);
        StoredNext(c, u, s.stored[i], ph.e, s.pushed[u]);
      }
    }
  }

  lemma NotYetStored<T>(c: Config, s: QueueState<T>, u: nat)
    requires Sized(c, s) && PushCounts(c, s) && u == s.head
    ensures Slot(c, u) < |s.stored| && |s.stored[Slot(c, u)]| <= Lap(c, u)
  {
    hide Slot, Pow2;
    WrapKeepsSlot(c, u);
    CountOfTicket(c, u);
  }

  lemma StoredLater<T>(c: Config, u: nat, stored: seq<T>, pushed: T)
    requires |stored| <= Lap(c, u)
    ensures StoredAs(c, u, stored, pushed)
  {
  }

  lemma OneTicketPerLap(c: Config, a: nat, b: nat)
    requires c.Valid() && Slot(c, a) == Slot(c, b)
    ensures Lap(c, a) == Lap(c, b) ==> a == b
  {
    hide Slot, Pow2;
    SameLap(c, a, b);
  }

  lemma StoredNext<T>(c: Config, u: nat, stored: seq<T>, e: T, pushed: T)
    requires StoredAs(c, u, stored, pushed) && (Lap(c, u) == |stored| ==> pushed == e)
    ensures StoredAs(c, u, stored + [e], pushed)
  {
    hide Lap;
  }

  /** What a consumer finds in its slot is what was pushed with its ticket. */
  lemma LoadedIsOwn<T>(c: Config, s: QueueState<T>, p: nat)
    requires Sized(c, s) && Exclusive(c, s) && History(c, s) && PushCounts(c, s)
    requires PoppersInOrder(c, s) && SlotsInOrder(c, s) && p < |s.threads| && s.threads[p].PopLoading?
    ensures var t, i := s.threads[p].t, Slot(c, s.threads[p].t);
            i < |s.elements| && t < |s.pushed| && s.elements[i] == s.pushed[t]
  {
    var t, i := s.threads[p].t, Slot(c, s.threads[p].t);
    WrapKeepsSlot(c, t);
    hide Slot, Word, Pow2;
    assert Touches(c, s.threads[p], i);
    assert SlotHistory(s.states[i], s.elements[i], s.stored[i], s.loaded[i]);
    CountOfTicket(c, t);
    if s.head <= t { CountMonotone(c, s.head, t, i); }
    assert StoredAs(c, t, s.stored[i], s.pushed[t]);
  }

  lemma MatchedAfter<T>(s: QueueState<T>, t: QueueState<T>, p: nat, ph: Phase<T>)
    requires Matched(s) && p < |s.threads| && t.threads == s.threads[p := ph] && s.pushed <= t.pushed
    requires t.received == s.received
      || (s.threads[p].PopReleasing? && t.received == s.received[s.threads[p].t := s.threads[p].e])
    requires ph.PopReleasing? ==> ph.t < |s.pushed| && ph.e == s.pushed[ph.t]
    ensures Matched(t)
  {
  }

  lemma MatchedStep<T>(c: Config, s: QueueState<T>, p: nat, call: Call<T>)
    requires Sized(c, s) && Exclusive(c, s) && History(c, s) && PushCounts(c, s)
    requires PoppersInOrder(c, s) && SlotsInOrder(c, s) && Matched(s) && p < |s.threads|
    ensures Matched(Step(c, s, p, call))
  {
    hide Slot, SignedDifference, Word, Pow2, Exclusive, History, PushCounts, PoppersInOrder, SlotsInOrder, Matched,
         Touches;
    if s.threads[p].PopLoading? { LoadedIsOwn(c, s, p); }
    if s.threads[p].HasTicket() { WrapKeepsSlot(c, s.threads[p].t); }
    var t := Step(c, s, p, call);
    MatchedAfter(s, t, p, t.threads[p]);
  }

  // ----- whole runs

  /** The thread that moves, and the call it begins if it is idle. */
  datatype Event<T> = Event(p: nat, call: Call<T>)

  ghost predicate Next<T>(c: Config, s: QueueState<T>, e: Event<T>, s': QueueState<T>) {
    Sized(c, s) && e.p < |s.threads| && s' == Step(c, s, e.p, e.call)
  }

  ghost predicate Path<T>(c: Config, ss: seq<QueueState<T>>, run: seq<Event<T>>) {
    && |ss| == |run| + 1
    && forall k {:trigger run[k]} :: 0 <= k < |run| ==> Next(c, ss[k], run[k], ss[k + 1])
  }

  /** ss are the states an interleaving of any number of threads goes through. */
  ghost predicate Behaviour<T(!new)>(c: Config, ss: seq<QueueState<T>>, run: seq<Event<T>>) {
    && c.Valid()
    && Path(c, ss, run)
    && exists n: nat, blank: T :: ss[0] == Init(c, n, blank)
  }

  lemma {:induction false} Reachable<T(!new)>(c: Config, ss: seq<QueueState<T>>, run: seq<Event<T>>, k: nat)
    requires Behaviour(c, ss, run) && k < |ss|
    ensures Inv(c, ss[k])
  {
    hide Inv, Step, Init;
    if k == 0 {
      var n: nat, blank: T :| ss[0] == Init(c, n, blank);
      InitHolds(c, n, blank);
    } else {
      Reachable(c, ss, run, k - 1);
      assert Next(c, ss[k - 1], run[k - 1], ss[k - 1 + 1]);
      InvStep(c, ss[k - 1], run[k - 1].p, run[k - 1].call);
    }
  }

  /** In every state of every interleaving: one thread at a time in a slot, what was loaded from
      a slot is what was first stored to it, and no element is lost, invented or duplicated. */
  lemma EveryInterleavingIsSafe<T(!new)>(c: Config, ss: seq<QueueState<T>>, run: seq<Event<T>>, k: nat)
    requires Behaviour(c, ss, run) && k < |ss|
    ensures |ss[k].states| == |ss[k].elements| == |ss[k].stored| == |ss[k].loaded| == c.Size()
    ensures forall p, q, i :: 0 <= p < q < |ss[k].threads| && 0 <= i < c.Size() ==>
              !(Touches(c, ss[k].threads[p], i) && Touches(c, ss[k].threads[q], i))
    ensures forall i :: 0 <= i < c.Size() ==> ss[k].loaded[i] <= ss[k].stored[i]
    ensures forall x :: multiset(ss[k].pushed)[x]
              == multiset(ss[k].popped)[x] + InSlots(ss[k].states, ss[k].elements, x) + InFlight(ss[k].threads, x)
    ensures Offered(ss, run, k) == multiset(ss[k].pushed) + Asked(ss[k].threads) + Refused(c, ss, run, k)
  {
    Reachable(c, ss, run, k);
    PushesAreAccountedFor(c, ss, run, k);
    var s := ss[k];
    hide Slot, Pow2, Touches, InSlots, InFlight, Init, Step, Behaviour;
    forall i | 0 <= i < c.Size() ensures s.loaded[i] <= s.stored[i] {
      assert SlotHistory(s.states[i], s.elements[i], s.stored[i], s.loaded[i]);
    }
    forall x ensures multiset(s.pushed)[x]
      == multiset(s.popped)[x] + InSlots(s.states, s.elements, x) + InFlight(s.threads, x)
    {
      assert ConservedFor(c, s, x);
    }
  }

  lemma InitInOrder<T>(c: Config, threads: nat, blank: T)
    requires c.Valid()
    ensures InOrder(c, Init(c, threads, blank))
  {
    hide Slot, Pow2;
  }

  lemma {:induction false} InOrderThroughout<T(!new)>(c: Config, ss: seq<QueueState<T>>, run: seq<Event<T>>, k: nat)
    requires Behaviour(c, ss, run) && k < |ss|
    requires forall j :: 0 <= j < |ss| ==> OneLap(c, ss[j])
    ensures InOrder(c, ss[k])
  {
    hide Step, Exclusive, Attended, History, Tickets, PushCounts, PopCounts, Conserved, OneLap, PushersInOrder,
         PoppersInOrder, SlotsInOrder, Matched, Init;
    if k == 0 {
      var n: nat, blank: T :| ss[0] == Init(c, n, blank);
      InitInOrder(c, n, blank);
    } else {
      InOrderThroughout(c, ss, run, k - 1);
      Reachable(c, ss, run, k - 1);
      assert Next(c, ss[k - 1], run[k - 1], ss[k - 1 + 1]);
      var s, p, call := ss[k - 1], run[k - 1].p, run[k - 1].call;
      StepKeepsSizes(c, s, p, call);
      PushersInOrderStep(c, s, p, call);
      PoppersInOrderStep(c, s, p, call);
      SlotsInOrderStep(c, s, p, call);
      MatchedStep(c, s, p, call);
    }
  }

  /** As long as no two producers and no two consumers are a lap apart, the consumer holding
      ticket t gets exactly the element pushed with ticket t. */
  lemma ConsumersGetTheirTicket<T(!new)>(c: Config, ss: seq<QueueState<T>>, run: seq<Event<T>>, k: nat, t: nat)
    requires Behaviour(c, ss, run) && k < |ss|
    requires forall j :: 0 <= j < |ss| ==> OneLap(c, ss[j])
    requires t in ss[k].received
    ensures t < |ss[k].pushed| && ss[k].received[t] == ss[k].pushed[t]
  {
    InOrderThroughout(c, ss, run, k);
  }

  // ----- try_push and try_pop only

  /** The fill level stays between empty and full, whatever stale copies the threads hold. */
  ghost predicate Bounded<T>(c: Config, s: QueueState<T>) {
    && s.tail <= s.head <= s.tail + c.Size()
    && (forall p :: 0 <= p < |s.threads| ==>
          match s.threads[p]
          case PushChecking(k, _) => k <= s.head
          case PushSwapping(k, _) => k <= s.head && k < s.tail + c.Size()
          case PopChecking(k) => k <= s.tail
          case PopSwapping(k) => k <= s.tail && k < s.head
          case _ => true)
  }

  /** A compare-and-swap that succeeds on a copy a whole 2^32 tickets old, just when the ring is
      full (or, for a consumer, empty). */
  ghost predicate SwapsOnStaleWord<T>(c: Config, s: QueueState<T>, p: nat)
    requires p < |s.threads|
  {
    match s.threads[p]
    case PushSwapping(k, _) => s.head == s.tail + c.Size() && Word(s.head) == Word(k)
    case PopSwapping(k) => s.head == s.tail && Word(s.tail) == Word(k)
    case _ => false
  }

  lemma SmallDifference(a: nat, b: nat)
    requires b <= a < b + TWO32 / 2
    ensures SignedDifference(a, b) == a - b
  {
    var d := a - b;
    assert Word(a) == (Word(b) + d) % TWO32 by {
      assert a == b / TWO32 * TWO32 + (Word(b) + d);
      DivModOfSum(TWO32, b / TWO32, Word(b) + d);
    }
  }

  lemma SizeIsSmall(c: Config)
    requires c.Valid()
    ensures c.Size() < TWO32 / 2
  {
    Pow2Of32();
    Pow2Monotone(c.log2Size, 31);
  }

  /** One step of a try-only run keeps the bound, unless and only unless it swaps on a stale word. */
  lemma BoundedStep<T>(c: Config, s: QueueState<T>, p: nat, call: Call<T>)
    requires Sized(c, s) && Bounded(c, s) && p < |s.threads| && (call.TryPush? || call.TryPop?)
    ensures Bounded(c, Step(c, s, p, call)) <==> !SwapsOnStaleWord(c, s, p)
  {
    SizeIsSmall(c);
    hide Slot, SignedDifference, Pow2;
    var ph, t := s.threads[p], Step(c, s, p, call);
    match ph
    case PushChecking(k, _) =>
      hide Word;
      if s.tail <= k { SmallDifference(k, s.tail); }
    case PopChecking(k) =>
      hide Word;
      if k == s.head { SmallDifference(s.head, k); }
    case PushWaiting(ticket, _) => WrapKeepsSlot(c, ticket);
    case PushStoring(ticket, _) => WrapKeepsSlot(c, ticket);
    case PushReleasing(ticket, _) => WrapKeepsSlot(c, ticket);
    case PopWaiting(ticket) => WrapKeepsSlot(c, ticket);
    case PopLoading(ticket) => WrapKeepsSlot(c, ticket);
    case PopReleasing(ticket, _) => WrapKeepsSlot(c, ticket);
    case _ =>
  }

  /** A copy less than 2^32 tickets old is not stale in that sense. */
  lemma RecentCopiesAreSafe<T>(c: Config, s: QueueState<T>, p: nat)
    requires Bounded(c, s) && p < |s.threads|
    requires s.threads[p].PushSwapping? ==> s.head < s.threads[p].k + TWO32
    requires s.threads[p].PopSwapping? ==> s.tail < s.threads[p].k + TWO32
    ensures !SwapsOnStaleWord(c, s, p)
  {
    var ph := s.threads[p];
    if ph.PushSwapping? && Word(ph.k) == Word(s.head) { SameResidue(TWO32, ph.k, s.head); }
    if ph.PopSwapping? && Word(ph.k) == Word(s.tail) { SameResidue(TWO32, ph.k, s.tail); }
  }

  ghost predicate TryOnly<T>(run: seq<Event<T>>) {
    forall k :: 0 <= k < |run| ==> run[k].call.TryPush? || run[k].call.TryPop?
  }

  ghost predicate NoStaleSwap<T>(c: Config, ss: seq<QueueState<T>>, run: seq<Event<T>>)
    requires Path(c, ss, run)
  {
    forall k :: 0 <= k < |run| ==> !SwapsOnStale(c, ss[k], run[k])
  }

  ghost predicate SwapsOnStale<T>(c: Config, s: QueueState<T>, e: Event<T>) {
    e.p < |s.threads| && SwapsOnStaleWord(c, s, e.p)
  }

  ghost predicate AllBounded<T>(c: Config, ss: seq<QueueState<T>>) {
    forall k :: 0 <= k < |ss| ==> Bounded(c, ss[k])
  }

  lemma InitBounded<T>(c: Config, threads: nat, blank: T)
    requires c.Valid()
    ensures Bounded(c, Init(c, threads, blank))
  {
    hide Pow2;
  }

  /** The fill level of a run of try_push and try_pop stays between empty and full in every state
      exactly when no step of the run swaps on a word that has come round again. */
  lemma FillLevelIsBounded<T(!new)>(c: Config, ss: seq<QueueState<T>>, run: seq<Event<T>>)
    requires Behaviour(c, ss, run) && TryOnly(run)
    ensures AllBounded(c, ss) <==> NoStaleSwap(c, ss, run)
  {
    hide Step, Bounded, Init, SwapsOnStaleWord;
    if NoStaleSwap(c, ss, run) {
      forall k | 0 <= k < |ss| ensures Bounded(c, ss[k]) { BoundedWithoutStaleSwaps(c, ss, run, k); }
    }
    if AllBounded(c, ss) {
      forall k | 0 <= k < |run| ensures !SwapsOnStale(c, ss[k], run[k]) {
        assert Next(c, ss[k], run[k], ss[k + 1]);
        BoundedStep(c, ss[k], run[k].p, run[k].call);
      }
    }
  }

  lemma {:induction false} BoundedWithoutStaleSwaps<T(!new)>(c: Config, ss: seq<QueueState<T>>, run: seq<Event<T>>,
                                                             k: nat)
    requires Behaviour(c, ss, run) && TryOnly(run) && NoStaleSwap(c, ss, run) && k < |ss|
    ensures Bounded(c, ss[k])
  {
    hide Step, Bounded, Init, SwapsOnStaleWord;
    if k == 0 {
      var n: nat, blank: T :| ss[0] == Init(c, n, blank);
      InitBounded(c, n, blank);
    } else {
      BoundedWithoutStaleSwaps(c, ss, run, k - 1);
      assert Next(c, ss[k - 1], run[k - 1], ss[k - 1 + 1]);
      assert !SwapsOnStale(c, ss[k - 1], run[k - 1]);
      BoundedStep(c, ss[k - 1], run[k - 1].p, run[k - 1].call);
    }
  }

  ghost predicate RecentCopies<T>(ss: seq<QueueState<T>>, run: seq<Event<T>>)
    requires |ss| == |run| + 1
  {
    forall k :: 0 <= k < |run| && run[k].p < |ss[k].threads| ==>
      var ph := ss[k].threads[run[k].p];
      && (ph.PushSwapping? ==> ss[k].head < ph.k + TWO32)
      && (ph.PopSwapping? ==> ss[k].tail < ph.k + TWO32)
  }

  /** In particular while every copy swapped with is less than 2^32 tickets old. */
  lemma {:induction false} RecentCopiesKeepTheBound<T(!new)>(c: Config, ss: seq<QueueState<T>>, run: seq<Event<T>>,
                                                             k: nat)
    requires Behaviour(c, ss, run) && TryOnly(run) && RecentCopies(ss, run) && k < |ss|
    ensures Bounded(c, ss[k])
  {
    hide Step, Bounded, Init, SwapsOnStaleWord;
    if k == 0 {
      var n: nat, blank: T :| ss[0] == Init(c, n, blank);
      InitBounded(c, n, blank);
    } else {
      RecentCopiesKeepTheBound(c, ss, run, k - 1);
      assert Next(c, ss[k - 1], run[k - 1], ss[k - 1 + 1]);
      RecentCopiesAreSafe(c, ss[k - 1], run[k - 1].p);
      BoundedStep(c, ss[k - 1], run[k - 1].p, run[k - 1].call);
    }
  }

  // ----- progress

  /** Thread q is in a call and its next step is not another turn of a spin loop. */
  ghost predicate Moves<T>(c: Config, s: QueueState<T>, q: nat)
    requires Sized(c, s)
  {
    q < |s.threads| && s.threads[q] != Idle && Step(c, s, q, TryPop) != s
  }

  lemma UnblockedMoves<T>(c: Config, s: QueueState<T>, p: nat)
    requires Sized(c, s) && p < |s.threads| && s.threads[p] != Idle
    requires s.threads[p].PushWaiting? ==>
        Slot(c, s.threads[p].t) < |s.states| && s.states[Slot(c, s.threads[p].t)] == EMPTY
    requires s.threads[p].PopWaiting? ==>
        Slot(c, s.threads[p].t) < |s.states| && s.states[Slot(c, s.threads[p].t)] == STORED
    ensures Moves(c, s, p)
  {
    if s.threads[p].HasTicket() { WrapKeepsSlot(c, s.threads[p].t); }
    hide Slot, SignedDifference, Word, Pow2;
    assert Step(c, s, p, TryPop).threads[p] != s.threads[p];
  }

  /** Whenever a thread is in a call of such a run, some thread can move on: nobody waits for ever
      on a slot nobody will release. */
  lemma NoReachableStateIsStuck<T(!new)>(c: Config, ss: seq<QueueState<T>>, run: seq<Event<T>>, k: nat, p: nat)
    requires Behaviour(c, ss, run) && TryOnly(run) && NoStaleSwap(c, ss, run) && k < |ss|
    requires p < |ss[k].threads| && ss[k].threads[p] != Idle
    ensures Sized(c, ss[k]) && exists q :: Moves(c, ss[k], q)
  {
    Reachable(c, ss, run, k);
    BoundedWithoutStaleSwaps(c, ss, run, k);
    var q := SomeoneMoves(c, ss[k], p);
  }

  /** The blocking forms promise no such thing: alone on an empty queue, pop takes a ticket and
      waits for a producer. */
  lemma PopOnEmptyIsStuck<T(!new)>(c: Config, blank: T) returns (ss: seq<QueueState<T>>, run: seq<Event<T>>)
    requires c.Valid()
    ensures Behaviour(c, ss, run) && run == [Event(0, Pop)]
    ensures Sized(c, ss[1]) && ss[1].threads == [PopWaiting(0)] && forall q :: !Moves(c, ss[1], q)
  {
    hide Slot, Pow2, Word, SignedDifference;
    WrapKeepsSlot(c, 0);
    var s := Init(c, 1, blank);
    ss, run := [s, Step(c, s, 0, Pop)], [Event(0, Pop)];
    assert Next(c, ss[0], run[0], ss[1]);
  }

  lemma SomeoneMoves<T(!new)>(c: Config, s: QueueState<T>, p: nat) returns (q: nat)
    requires Inv(c, s) && Bounded(c, s) && p < |s.threads| && s.threads[p] != Idle
    ensures Moves(c, s, q)
  {
    hide Step, Slot, Word, Pow2, Count, PushersAt, PoppersAt, Exclusive, Tickets, Conserved;
    q := p;
    if s.threads[p].PushWaiting? || s.threads[p].PopWaiting? {
      var i := Slot(c, s.threads[p].t);
      WrapKeepsSlot(c, s.threads[p].t);
      assert SlotHistory(s.states[i], s.elements[i], s.stored[i], s.loaded[i]);
      if s.states[i].STORING? || s.states[i].LOADING? {
        q :| 0 <= q < |s.threads| && Touches(c, s.threads[q], i);
      } else if s.states[i].EMPTY? && s.threads[p].PopWaiting? {
        q := SomePusher(c, s.threads, s.head, s.tail, p, i, |s.stored[i]|);
      } else if s.states[i].STORED? && s.threads[p].PushWaiting? {
        q := SomePopper(c, s.threads, s.head, s.tail, p, i, |s.loaded[i]|);
      }
    }
    UnblockedMoves(c, s, q);
  }

  /** A consumer waits on an empty slot, with as many loads as stores: the producer it waits for
      has a ticket. */
  lemma SomePusher<T>(c: Config, threads: seq<Phase<T>>, head: nat, tail: nat, p: nat, i: nat, n: nat) returns (q: nat)
    requires p < |threads| && threads[p].Popping() && Slot(c, threads[p].t) == i && tail <= head
    requires Count(c, tail, i) == n + |PoppersAt(c, threads, i)| && Count(c, head, i) == n + |PushersAt(c, threads, i)|
    ensures q < |threads| && threads[q].Pushing() && Slot(c, threads[q].t) == i
  {
    hide Slot, Count;
    assert p in PoppersAt(c, threads, i);
    CountMonotone(c, tail, head, i);
    assert PushersAt(c, threads, i) != {};
    q :| q in PushersAt(c, threads, i);
  }

  /** A producer waits on a stored slot, one load behind: the consumer it waits for has a ticket,
      or the ring would have more than one lap of elements. */
  lemma SomePopper<T>(c: Config, threads: seq<Phase<T>>, head: nat, tail: nat, p: nat, i: nat, n: nat) returns (q: nat)
    requires c.Valid() && i < c.Size() && tail <= head <= tail + c.Size()
    requires p < |threads| && threads[p].Pushing() && Slot(c, threads[p].t) == i
    requires Count(c, tail, i) == n + |PoppersAt(c, threads, i)|
    requires Count(c, head, i) == n + 1 + |PushersAt(c, threads, i)|
    ensures q < |threads| && threads[q].Popping() && Slot(c, threads[q].t) == i
  {
    hide Slot, Count, Pow2;
    assert p in PushersAt(c, threads, i);
    CountWithinALap(c, tail, head, i);
    assert PoppersAt(c, threads, i) != {};
    q :| q in PoppersAt(c, threads, i);
  }

  // ----- a run that overfills the ring

  ghost predicate Reaches<T(!new)>(c: Config, s: QueueState<T>, t: QueueState<T>) {
    exists ss: seq<QueueState<T>>, run: seq<Event<T>> :: Leads(c, ss, run, s, t)
  }

  ghost predicate Leads<T>(c: Config, ss: seq<QueueState<T>>, run: seq<Event<T>>, s: QueueState<T>, t: QueueState<T>) {
    Path(c, ss, run) && TryOnly(run) && ss[0] == s && ss[|run|] == t
  }

  lemma ReachesItself<T(!new)>(c: Config, s: QueueState<T>)
    ensures Reaches(c, s, s)
  {
    assert Leads(c, [s], [], s, s);
  }

  lemma ReachesNext<T(!new)>(c: Config, s: QueueState<T>, t: QueueState<T>, p: nat, call: Call<T>)
    requires Reaches(c, s, t) && Sized(c, t) && p < |t.threads| && (call.TryPush? || call.TryPop?)
    ensures Reaches(c, s, Step(c, t, p, call))
  {
    hide Step, Sized;
    var ss: seq<QueueState<T>>, run: seq<Event<T>> :| Leads(c, ss, run, s, t);
    var u, e := Step(c, t, p, call), Event(p, call);
    var ss', run' := ss + [u], run + [e];
    forall k | 0 <= k < |run'| ensures Next(c, ss'[k], run'[k], ss'[k + 1]) {
      if k < |run| { assert Next(c, ss[k], run[k], ss[k + 1]); }
    }
    assert Leads(c, ss', run', s, u);
  }

  /** A parked producer, an idle thread, and the tickets of one lap: those below head stored, the
      others empty. */
  ghost predicate Ring<T>(c: Config, s: QueueState<T>, parked: Phase<T>, head: nat, tail: nat) {
    && Sized(c, s) && s.threads == [parked, Idle]
    && s.head == head && s.tail == tail <= head <= tail + c.Size()
    && LapHolds(c, s.states, head, tail)
  }

  ghost predicate LapHolds(c: Config, states: seq<SlotState>, head: nat, tail: nat) {
    forall u :: tail <= u < tail + c.Size() ==> Holds(c, states, u, head)
  }

  ghost predicate Holds(c: Config, states: seq<SlotState>, ticket: nat, head: nat) {
    Slot(c, ticket) < |states| && states[Slot(c, ticket)] == if ticket < head then STORED else EMPTY
  }

  lemma OthersHold(c: Config, states: seq<SlotState>, t: nat, st: SlotState, u: nat, head: nat)
    requires c.Valid() && Slot(c, t) < |states| && Holds(c, states, u, head)
    requires u != t && u < t + c.Size() && t < u + c.Size()
    ensures Holds(c, states[Slot(c, t) := st], u, head)
  {
    hide Slot, Pow2;
    if Slot(c, t) == Slot(c, u) { SameLap(c, t, u); }
  }

  lemma LapAfterPush(c: Config, states: seq<SlotState>, head: nat, tail: nat)
    requires c.Valid() && LapHolds(c, states, head, tail) && tail <= head < tail + c.Size()
    ensures Slot(c, head) < |states| && states[Slot(c, head)] == EMPTY
    ensures LapHolds(c, states[Slot(c, head) := STORED], head + 1, tail)
  {
    hide Slot, Pow2;
    assert Holds(c, states, head, head);
    var after := states[Slot(c, head) := STORED];
    var next := head + 1;
    forall u | tail <= u < tail + c.Size() ensures Holds(c, after, u, next) {
      assert Holds(c, states, u, head);
      if u != head { OthersHold(c, states, head, STORED, u, head); }
    }
  }

  lemma LapAfterPop(c: Config, states: seq<SlotState>, head: nat, tail: nat)
    requires c.Valid() && LapHolds(c, states, head, tail) && tail < head <= tail + c.Size()
    ensures Slot(c, tail) < |states| && states[Slot(c, tail)] == STORED
    ensures LapHolds(c, states[Slot(c, tail) := EMPTY], head, tail + 1)
  {
    hide Slot, Pow2;
    assert Holds(c, states, tail, head);
    var after := states[Slot(c, tail) := EMPTY];
    forall u | tail + 1 <= u < tail + 1 + c.Size() ensures Holds(c, after, u, head) {
      if u == tail + c.Size() {
        SlotALapOn(c, tail);
      } else {
        assert Holds(c, states, u, head);
        OthersHold(c, states, tail, EMPTY, u, head);
      }
    }
  }

  lemma SlotALapOn(c: Config, t: nat)
    requires c.Valid()
    ensures Slot(c, t + c.Size()) == Slot(c, t)
  {
    hide Slot, Pow2;
    OneLapOn(c.Size(), t);
    SameSlot(c, t + c.Size(), t);
  }

  lemma GoesOn<T(!new)>(c: Config, first: QueueState<T>, s: QueueState<T>, call: Call<T>, next: QueueState<T>)
    requires Sized(c, s) && Reaches(c, first, s) && |s.threads| == 2 && (call.TryPush? || call.TryPop?)
    requires next == Step(c, s, 1, call)
    ensures Reaches(c, first, next) && Sized(c, next)
  {
    StepKeepsSizes(c, s, 1, call);
    hide *;
    ReachesNext(c, first, s, 1, call);
  }

  /** The three steps in which the second thread gets the next ticket of a try_push. */
  lemma TakesPushTicket<T(!new)>(c: Config, first: QueueState<T>, s: QueueState<T>, parked: Phase<T>, e: T)
    returns (t: QueueState<T>)
    requires Sized(c, s) && Reaches(c, first, s) && s.threads == [parked, Idle]
    requires s.tail <= s.head < s.tail + c.Size()
    ensures Reaches(c, first, t) && Sized(c, t)
    ensures t == s.(threads := [parked, PushWaiting(s.head, e)], head := s.head + 1, pushed := s.pushed + [e])
  {
    SizeIsSmall(c);
    SmallDifference(s.head, s.tail);
    hide Slot, Word, SignedDifference, Pow2, Reaches, Sized;
    var a := To(s, 1, PushChecking(s.head, e));
    GoesOn(c, first, s, TryPush(e), a);
    var b := To(a, 1, PushSwapping(s.head, e));
    GoesOn(c, first, a, TryPop, b);
    t := IssuePush(b, 1, e);
    GoesOn(c, first, b, TryPop, t);
  }

  lemma TakesPopTicket<T(!new)>(c: Config, first: QueueState<T>, s: QueueState<T>, parked: Phase<T>)
    returns (t: QueueState<T>)
    requires Sized(c, s) && Reaches(c, first, s) && s.threads == [parked, Idle]
    requires s.tail < s.head <= s.tail + c.Size()
    ensures Reaches(c, first, t) && Sized(c, t)
    ensures t == s.(threads := [parked, PopWaiting(s.tail)], tail := s.tail + 1)
  {
    SizeIsSmall(c);
    SmallDifference(s.head, s.tail);
    hide Slot, Word, SignedDifference, Pow2, Reaches, Sized;
    var a := To(s, 1, PopChecking(s.tail));
    GoesOn(c, first, s, TryPop, a);
    var b := To(a, 1, PopSwapping(s.tail));
    GoesOn(c, first, a, TryPop, b);
    t := IssuePop(b, 1);
    GoesOn(c, first, b, TryPop, t);
  }

  /** And the three in which it fills its slot. */
  lemma FillsSlot<T(!new)>(c: Config, first: QueueState<T>, s: QueueState<T>, parked: Phase<T>, n: nat, e: T)
    returns (t: QueueState<T>)
    requires Sized(c, s) && Reaches(c, first, s) && s.threads == [parked, PushWaiting(n, e)]
    requires Slot(c, n) < |s.states| && s.states[Slot(c, n)] == EMPTY
    ensures Reaches(c, first, t) && Sized(c, t) && t.threads == [parked, Idle]
    ensures t.head == s.head && t.tail == s.tail && t.states == s.states[Slot(c, n) := STORED]
  {
    hide Slot, Word, SignedDifference, Pow2, Reaches;
    var i := Slot(c, n);
    var a := To(s, 1, PushStoring(n, e)).(states := s.states[i := STORING]);
    GoesOn(c, first, s, TryPop, a);
    var b := To(a, 1, PushReleasing(n, e)).(elements := s.elements[i := e]);
    GoesOn(c, first, a, TryPop, b);
    t := Step(c, b, 1, TryPop);
    GoesOn(c, first, b, TryPop, t);
    assert t.states == a.states[i := STORED];
  }

  lemma EmptiesSlot<T(!new)>(c: Config, first: QueueState<T>, s: QueueState<T>, parked: Phase<T>, n: nat)
    returns (t: QueueState<T>)
    requires Sized(c, s) && Reaches(c, first, s) && s.threads == [parked, PopWaiting(n)]
    requires Slot(c, n) < |s.states| && s.states[Slot(c, n)] == STORED
    ensures Reaches(c, first, t) && Sized(c, t) && t.threads == [parked, Idle]
    ensures t.head == s.head && t.tail == s.tail && t.states == s.states[Slot(c, n) := EMPTY]
  {
    hide Slot, Word, SignedDifference, Pow2, Reaches;
    var i := Slot(c, n);
    var a := To(s, 1, PopLoading(n)).(states := s.states[i := LOADING]);
    GoesOn(c, first, s, TryPop, a);
    var b := To(a, 1, PopReleasing(n, s.elements[i]));
    GoesOn(c, first, a, TryPop, b);
    t := Step(c, b, 1, TryPop);
    GoesOn(c, first, b, TryPop, t);
    assert t.states == a.states[i := EMPTY];
  }

  lemma PushRound<T(!new)>(c: Config, first: QueueState<T>, s: QueueState<T>, parked: Phase<T>, e: T)
    returns (t: QueueState<T>)
    requires Ring(c, s, parked, s.head, s.tail) && s.head < s.tail + c.Size() && Reaches(c, first, s)
    ensures Reaches(c, first, t) && Ring(c, t, parked, s.head + 1, s.tail)
  {
    hide Slot, LapHolds, Pow2, Reaches;
    LapAfterPush(c, s.states, s.head, s.tail);
    t := TakesPushTicket(c, first, s, parked, e);
    t := FillsSlot(c, first, t, parked, s.head, e);
  }

  lemma PopRound<T(!new)>(c: Config, first: QueueState<T>, s: QueueState<T>, parked: Phase<T>)
    returns (t: QueueState<T>)
    requires Ring(c, s, parked, s.head, s.tail) && s.tail < s.head && Reaches(c, first, s)
    ensures Reaches(c, first, t) && Ring(c, t, parked, s.head, s.tail + 1)
  {
    hide Slot, LapHolds, Pow2, Reaches;
    LapAfterPop(c, s.states, s.head, s.tail);
    t := TakesPopTicket(c, first, s, parked);
    t := EmptiesSlot(c, first, t, parked, s.tail);
  }

  lemma {:induction false} Cycled<T(!new)>(c: Config, first: QueueState<T>, s: QueueState<T>, parked: Phase<T>, e: T,
                                           n: nat)
    returns (t: QueueState<T>)
    requires Reaches(c, first, s) && Ring(c, s, parked, 0, 0)
    ensures Reaches(c, first, t) && Ring(c, t, parked, n, n)
  {
    hide *;
    t := s;
    if n > 0 {
      t := Cycled(c, first, s, parked, e, n - 1);
      RingCounts(c, t, parked, n - 1, n - 1);
      t := PushRound(c, first, t, parked, e);
      RingCounts(c, t, parked, n, n - 1);
      t := PopRound(c, first, t, parked);
    }
  }

  lemma RingCounts<T>(c: Config, s: QueueState<T>, parked: Phase<T>, head: nat, tail: nat)
    requires Ring(c, s, parked, head, tail)
    ensures Sized(c, s) && s.head == head && s.tail == tail && s.threads == [parked, Idle] && c.Size() > 0
  {
  }

  lemma {:induction false} Filled<T(!new)>(c: Config, first: QueueState<T>, s: QueueState<T>, parked: Phase<T>, e: T,
                                           n: nat)
    returns (t: QueueState<T>)
    requires Ring(c, s, parked, s.tail, s.tail) && Reaches(c, first, s) && n <= c.Size()
    ensures Reaches(c, first, t) && Ring(c, t, parked, s.tail + n, s.tail)
  {
    hide *;
    t := s;
    if n > 0 {
      t := Filled(c, first, s, parked, e, n - 1);
      RingCounts(c, t, parked, s.tail + n - 1, s.tail);
      t := PushRound(c, first, t, parked, e);
    }
  }

  /** The first thread reads head and tail and parks before its swap. */
  lemma Parked<T(!new)>(c: Config, e: T) returns (s: QueueState<T>)
    requires c.Valid()
    ensures Reaches(c, Init(c, 2, e), s) && Ring(c, s, PushSwapping(0, e), 0, 0)
  {
    hide Slot, Word, SignedDifference, Pow2, Reaches;
    SizeIsSmall(c);
    SmallDifference(0, 0);
    var first := Init(c, 2, e);
    ReachesItself(c, first);
    ReachesNext(c, first, first, 0, TryPush(e));
    s := Step(c, first, 0, TryPush(e));
    ReachesNext(c, first, s, 0, TryPop);
    s := Step(c, s, 0, TryPop);
    forall u | 0 <= u < c.Size() ensures Holds(c, s.states, u, 0) { WrapKeepsSlot(c, u); }
  }

  lemma FullAfterAllWords<T(!new)>(c: Config, e: T) returns (s: QueueState<T>)
    requires c.Valid()
    ensures Reaches(c, Init(c, 2, e), s) && c.Size() <= TWO32
    ensures Ring(c, s, PushSwapping(0, e), TWO32, TWO32 - c.Size())
  {
    SizeIsSmall(c);
    hide *;
    var first, parked := Init(c, 2, e), PushSwapping(0, e);
    s := Parked(c, e);
    s := Cycled(c, first, s, parked, e, TWO32 - c.Size());
    RingCounts(c, s, parked, TWO32 - c.Size(), TWO32 - c.Size());
    s := Filled(c, first, s, parked, e, c.Size());
  }

  lemma Overfilled<T>(c: Config, s: QueueState<T>, e: T)
    requires c.Valid() && c.Size() <= TWO32 && Ring(c, s, PushSwapping(0, e), TWO32, TWO32 - c.Size())
    ensures SwapsOnStaleWord(c, s, 0)
    ensures var t := Step(c, s, 0, TryPop);
            && Sized(c, t) && t.head == t.tail + c.Size() + 1 && t.threads == [PushWaiting(TWO32, e), Idle]
            && forall q :: !Moves(c, t, q)
  {
    var n := TWO32 - c.Size();
    assert Word(TWO32) == Word(0);
    hide Slot, Word, SignedDifference, Pow2;
    assert Holds(c, s.states, n, TWO32);
    SlotALapOn(c, n);
    var t := Step(c, s, 0, TryPop);
    assert t == IssuePush(s, 0, e);
    NothingMoves(c, t, TWO32, e);
  }

  lemma NothingMoves<T>(c: Config, t: QueueState<T>, n: nat, e: T)
    requires Sized(c, t) && t.threads == [PushWaiting(n, e), Idle]
    requires Slot(c, n) < |t.states| && t.states[Slot(c, n)] == STORED
    ensures forall q :: !Moves(c, t, q)
  {
    hide Slot, Word, SignedDifference, Pow2;
    WrapKeepsSlot(c, n);
    assert Step(c, t, 0, TryPop) == t;
  }

  /** Such swaps can happen: a try_push that sleeps before its swap while 2^32 tickets go by finds
      its word again and takes a ticket of a ring that is already full. Nothing moves after that. */
  lemma StaleSwapOverfills<T(!new)>(c: Config, e: T) returns (ss: seq<QueueState<T>>, run: seq<Event<T>>)
    requires c.Valid()
    ensures Behaviour(c, ss, run) && TryOnly(run) && !NoStaleSwap(c, ss, run)
    ensures var last := ss[|run|];
            && last.head == last.tail + c.Size() + 1 && last.threads == [PushWaiting(TWO32, e), Idle]
            && Sized(c, last) && forall q :: !Moves(c, last, q)
  {
    var first := Init(c, 2, e);
    var s := FullAfterAllWords(c, e);
    Overfilled(c, s, e);
    RingCounts(c, s, PushSwapping(0, e), TWO32, TWO32 - c.Size());
    ReachesNext(c, first, s, 0, TryPop);
    hide Step, Init, SwapsOnStaleWord, Ring, Sized, Moves;
    ss, run :| Leads(c, ss, run, first, Step(c, s, 0, TryPop));
    assert Behaviour(c, ss, run);
    if NoStaleSwap(c, ss, run) {
      BoundedWithoutStaleSwaps(c, ss, run, |run|);
      assert false;
    }
  }

  // ----- what became of every call

  /** What the two tests of the try forms mean: k is the copy the thread holds, and the difference
      is that of the 32-bit words, as a signed number. */
  ghost predicate LooksFull(c: Config, k: nat, tail: nat) {
    c.Size() <= (k - tail) % TWO32 < TWO32 / 2
  }

  ghost predicate LooksEmpty(head: nat, k: nat) {
    (head - k) % TWO32 == 0 || (head - k) % TWO32 >= TWO32 / 2
  }

  lemma WordDifference(a: nat, b: nat)
    ensures (Word(a) + TWO32 - Word(b)) % TWO32 == (a - b) % TWO32
  {
    var q := a / TWO32 - b / TWO32;
    assert a - b == q * TWO32 + (Word(a) - Word(b));
    assert (Word(a) - Word(b)) % TWO32 == (Word(a) + TWO32 - Word(b)) % TWO32;
  }

  lemma TestsMean(c: Config, a: nat, b: nat)
    requires c.Valid()
    ensures SignedDifference(a, b) >= c.Size() <==> LooksFull(c, a, b)
    ensures SignedDifference(a, b) <= 0 <==> LooksEmpty(a, b)
  {
    WordDifference(a, b);
  }

  /** The argument of a push or try_push that begins with this event. */
  ghost function OfferedBy<T>(s: QueueState<T>, e: Event<T>): multiset<T> {
    if e.p < |s.threads| && s.threads[e.p] == Idle && (e.call.Push? || e.call.TryPush?) then multiset{e.call.arg}
    else multiset{}
  }

  /** The element of a try_push that gives up: its check saw a full ring. */
  ghost function RefusedBy<T>(c: Config, s: QueueState<T>, e: Event<T>): multiset<T> {
    if e.p < |s.threads| && s.threads[e.p].PushChecking? && LooksFull(c, s.threads[e.p].k, s.tail) then
      multiset{s.threads[e.p].e}
    else multiset{}
  }

  ghost function Offered<T>(ss: seq<QueueState<T>>, run: seq<Event<T>>, k: nat): multiset<T>
    requires k <= |run| && |ss| == |run| + 1
  {
    if k == 0 then multiset{} else Offered(ss, run, k - 1) + OfferedBy(ss[k - 1], run[k - 1])
  }

  ghost function Refused<T>(c: Config, ss: seq<QueueState<T>>, run: seq<Event<T>>, k: nat): multiset<T>
    requires k <= |run| && |ss| == |run| + 1
  {
    if k == 0 then multiset{} else Refused(c, ss, run, k - 1) + RefusedBy(c, ss[k - 1], run[k - 1])
  }

  /** The element of a try_push that has neither a ticket nor an answer yet. */
  ghost function AskedBy<T>(ph: Phase<T>): multiset<T> {
    if ph.PushChecking? || ph.PushSwapping? then multiset{ph.e} else multiset{}
  }

  ghost function Asked<T>(threads: seq<Phase<T>>): multiset<T> {
    if threads == [] then multiset{} else Asked(threads[1..]) + AskedBy(threads[0])
  }

  lemma WithOneMore<T>(a: multiset<T>, a': multiset<T>, one: multiset<T>, one': multiset<T>, b: multiset<T>)
    requires a' + one == a + one'
    ensures a' + b + one == a + b + one'
  {
    forall x ensures (a' + b + one)[x] == (a + b + one')[x] {
      assert (a' + one)[x] == (a + one')[x];
    }
  }

  lemma {:induction false} AskedAfter<T>(threads: seq<Phase<T>>, p: nat, ph: Phase<T>)
    requires p < |threads|
    ensures Asked(threads[p := ph]) + AskedBy(threads[p]) == Asked(threads) + AskedBy(ph)
  {
    hide AskedBy;
    var after := threads[p := ph];
    if p == 0 {
      assert after[1..] == threads[1..];
    } else {
      AskedAfter(threads[1..], p - 1, ph);
      assert after[1..] == threads[1..][p - 1 := ph];
      WithOneMore(Asked(threads[1..]), Asked(after[1..]), AskedBy(threads[p]), AskedBy(ph), AskedBy(threads[0]));
    }
  }

  lemma {:induction false} NobodyAsks<T>(threads: seq<Phase<T>>)
    requires forall p :: 0 <= p < |threads| ==> threads[p] == Idle
    ensures Asked(threads) == multiset{} && Consumers(threads) == Takers(threads) == 0
  {
    if threads != [] { NobodyAsks(threads[1..]); }
  }

  lemma Balance<T>(a: multiset<T>, a': multiset<T>, one: multiset<T>, one': multiset<T>, p: multiset<T>,
                   p': multiset<T>, refused: multiset<T>, offered: multiset<T>)
    requires a' + one == a + one' && p' + one' + refused == p + one + offered
    ensures p' + a' + refused == p + a + offered
  {
    forall x ensures (p' + a' + refused)[x] == (p + a + offered)[x] {
      assert (a' + one)[x] == (a + one')[x] && (p' + one' + refused)[x] == (p + one + offered)[x];
    }
  }

  ghost predicate Asks<T>(ph: Phase<T>, e: T) {
    (ph.PushChecking? || ph.PushSwapping?) && ph.e == e
  }

  ghost predicate AsksNothing<T>(ph: Phase<T>) { !ph.PushChecking? && !ph.PushSwapping? }

  /** How the moving thread and the list of pushed elements change together. */
  lemma PushCases<T>(c: Config, s: QueueState<T>, e: Event<T>, t: QueueState<T>)
    requires Next(c, s, e, t)
    ensures |t.threads| == |s.threads| && t.threads == s.threads[e.p := t.threads[e.p]]
    ensures var ph, ph' := s.threads[e.p], t.threads[e.p];
            if ph.PushChecking? then
              t.pushed == s.pushed && if LooksFull(c, ph.k, s.tail) then ph' == Idle else Asks(ph', ph.e)
            else if ph.PushSwapping? then
              if ph'.PushWaiting? then t.pushed == s.pushed + [ph.e] else t.pushed == s.pushed && Asks(ph', ph.e)
            else if ph == Idle && e.call.TryPush? then t.pushed == s.pushed && Asks(ph', e.call.arg)
            else
              && AsksNothing(ph')
              && t.pushed == if ph == Idle && e.call.Push? then s.pushed + [e.call.arg] else s.pushed
  {
    var ph := s.threads[e.p];
    if ph.PushChecking? { TestsMean(c, ph.k, s.tail); }
    hide Slot, SignedDifference, Word, Pow2, LooksFull;
    if ph.HasTicket() { WrapKeepsSlot(c, ph.t); }
  }

  lemma PushAccountedHere<T>(c: Config, s: QueueState<T>, e: Event<T>, t: QueueState<T>)
    requires Next(c, s, e, t)
    ensures |t.threads| == |s.threads| && t.threads == s.threads[e.p := t.threads[e.p]]
    ensures multiset(t.pushed) + AskedBy(t.threads[e.p]) + RefusedBy(c, s, e)
         == multiset(s.pushed) + AskedBy(s.threads[e.p]) + OfferedBy(s, e)
  {
    hide Step, LooksFull;
    PushCases(c, s, e, t);
  }

  lemma PushAccounted<T>(c: Config, s: QueueState<T>, e: Event<T>, t: QueueState<T>)
    requires Next(c, s, e, t)
    ensures multiset(t.pushed) + Asked(t.threads) + RefusedBy(c, s, e)
         == multiset(s.pushed) + Asked(s.threads) + OfferedBy(s, e)
  {
    hide Asked, AskedBy, RefusedBy, OfferedBy, Step;
    PushAccountedHere(c, s, e, t);
    AskedAfter(s.threads, e.p, t.threads[e.p]);
    Balance(Asked(s.threads), Asked(t.threads), AskedBy(s.threads[e.p]), AskedBy(t.threads[e.p]),
            multiset(s.pushed), multiset(t.pushed), RefusedBy(c, s, e), OfferedBy(s, e));
  }

  lemma Balances<T>(offered: multiset<T>, now: multiset<T>, refused: multiset<T>, now': multiset<T>, r: multiset<T>,
                    o: multiset<T>)
    requires offered == now + refused && now' + r == now + o
    ensures offered + o == now' + (refused + r)
  {
    forall x ensures (offered + o)[x] == (now' + (refused + r))[x] {
      assert (now' + r)[x] == (now + o)[x];
    }
  }

  /** Nothing that was offered is forgotten: in every state of every run the arguments of the push
      and try_push calls begun so far are what was pushed, what a try_push still asks a ticket for,
      and what was refused where the check saw a full ring. */
  lemma {:induction false} PushesAreAccountedFor<T(!new)>(c: Config, ss: seq<QueueState<T>>, run: seq<Event<T>>, k: nat)
    requires Behaviour(c, ss, run) && k <= |run|
    ensures Offered(ss, run, k) == multiset(ss[k].pushed) + Asked(ss[k].threads) + Refused(c, ss, run, k)
  {
    hide Step, Next, Asked, OfferedBy, RefusedBy;
    if k == 0 {
      var n: nat, blank: T :| ss[0] == Init(c, n, blank);
      NobodyAsks(ss[0].threads);
    } else {
      PushesAreAccountedFor(c, ss, run, k - 1);
      assert Next(c, ss[k - 1], run[k - 1], ss[k - 1 + 1]);
      PushAccounted(c, ss[k - 1], run[k - 1], ss[k]);
      Balances(Offered(ss, run, k - 1), multiset(ss[k - 1].pushed) + Asked(ss[k - 1].threads),
               Refused(c, ss, run, k - 1), multiset(ss[k].pushed) + Asked(ss[k].threads),
               RefusedBy(c, ss[k - 1], run[k - 1]), OfferedBy(ss[k - 1], run[k - 1]));
    }
  }

  // ----- the same for consumers

  ghost function TakenBy<T>(s: QueueState<T>, e: Event<T>): nat {
    if e.p < |s.threads| && s.threads[e.p] == Idle && (e.call.Pop? || e.call.TryPop?) then 1 else 0
  }

  /** A try_pop that gives up: its check saw an empty ring. */
  ghost function TurnedAwayBy<T>(s: QueueState<T>, e: Event<T>): nat {
    if e.p < |s.threads| && s.threads[e.p].PopChecking? && LooksEmpty(s.head, s.threads[e.p].k) then 1 else 0
  }

  /** How many pop and try_pop calls were begun. */
  ghost function PopsBegun<T>(ss: seq<QueueState<T>>, run: seq<Event<T>>, k: nat): nat
    requires k <= |run| && |ss| == |run| + 1
  {
    if k == 0 then 0 else PopsBegun(ss, run, k - 1) + TakenBy(ss[k - 1], run[k - 1])
  }

  ghost function TurnedAway<T>(ss: seq<QueueState<T>>, run: seq<Event<T>>, k: nat): nat
    requires k <= |run| && |ss| == |run| + 1
  {
    if k == 0 then 0 else TurnedAway(ss, run, k - 1) + TurnedAwayBy(ss[k - 1], run[k - 1])
  }

  /** Threads in a try_pop that have neither a ticket nor an answer yet. */
  ghost function Takers<T>(threads: seq<Phase<T>>): nat {
    if threads == [] then 0
    else Takers(threads[1..]) + if threads[0].PopChecking? || threads[0].PopSwapping? then 1 else 0
  }

  /** Threads with a consumer's ticket. */
  ghost function Consumers<T>(threads: seq<Phase<T>>): nat {
    if threads == [] then 0 else Consumers(threads[1..]) + if threads[0].Popping() then 1 else 0
  }

  lemma {:induction false} TakersAfter<T>(threads: seq<Phase<T>>, p: nat, ph: Phase<T>)
    requires p < |threads|
    ensures Takers(threads[p := ph]) + (if threads[p].PopChecking? || threads[p].PopSwapping? then 1 else 0)
         == Takers(threads) + if ph.PopChecking? || ph.PopSwapping? then 1 else 0
    ensures Consumers(threads[p := ph]) + (if threads[p].Popping() then 1 else 0)
         == Consumers(threads) + if ph.Popping() then 1 else 0
  {
    if p == 0 {
      assert threads[0 := ph][1..] == threads[1..];
    } else {
      TakersAfter(threads[1..], p - 1, ph);
      assert threads[p := ph][1..] == threads[1..][p - 1 := ph];
    }
  }

  lemma PopAccountedHere<T>(c: Config, s: QueueState<T>, e: Event<T>, t: QueueState<T>)
    requires Next(c, s, e, t)
    ensures |t.threads| == |s.threads| && t.threads == s.threads[e.p := t.threads[e.p]]
    ensures var ph, ph' := s.threads[e.p], t.threads[e.p];
            && t.tail + (if ph'.PopChecking? || ph'.PopSwapping? then 1 else 0) + TurnedAwayBy(s, e)
               == s.tail + (if ph.PopChecking? || ph.PopSwapping? then 1 else 0) + TakenBy(s, e)
            && t.tail - |t.popped| - (if ph'.Popping() then 1 else 0)
               == s.tail - |s.popped| - (if ph.Popping() then 1 else 0)
  {
    var ph := s.threads[e.p];
    if ph.PopChecking? { TestsMean(c, s.head, ph.k); }
    hide Slot, SignedDifference, Word, Pow2, LooksEmpty;
    if ph.HasTicket() { WrapKeepsSlot(c, ph.t); }
  }

  lemma PopAccounted<T>(c: Config, s: QueueState<T>, e: Event<T>, t: QueueState<T>)
    requires Next(c, s, e, t)
    ensures t.tail + Takers(t.threads) + TurnedAwayBy(s, e) == s.tail + Takers(s.threads) + TakenBy(s, e)
    ensures t.tail - |t.popped| - Consumers(t.threads) == s.tail - |s.popped| - Consumers(s.threads)
  {
    hide Step, Takers, Consumers, TurnedAwayBy, TakenBy;
    PopAccountedHere(c, s, e, t);
    TakersAfter(s.threads, e.p, t.threads[e.p]);
  }

  /** Every pop and try_pop begun has returned an element, holds a ticket, still asks for one, or
      was turned away where its check saw an empty ring. */
  lemma {:induction false} PopsAreAccountedFor<T(!new)>(c: Config, ss: seq<QueueState<T>>, run: seq<Event<T>>, k: nat)
    requires Behaviour(c, ss, run) && k <= |run|
    ensures PopsBegun(ss, run, k)
         == |ss[k].popped| + Consumers(ss[k].threads) + Takers(ss[k].threads) + TurnedAway(ss, run, k)
    ensures ss[k].tail == |ss[k].popped| + Consumers(ss[k].threads)
  {
    hide Step, Next, Takers, Consumers, TakenBy, TurnedAwayBy;
    if k == 0 {
      var n: nat, blank: T :| ss[0] == Init(c, n, blank);
      NobodyAsks(ss[0].threads);
    } else {
      PopsAreAccountedFor(c, ss, run, k - 1);
      assert Next(c, ss[k - 1], run[k - 1], ss[k - 1 + 1]);
      PopAccounted(c, ss[k - 1], run[k - 1], ss[k]);
    }
  }

  /** While the fill level is within the ring and the copy is no more than 2^31 tickets old, full
      and empty are what they seem. */
  lemma RefusalsAreJust<T>(c: Config, s: QueueState<T>, p: nat)
    requires c.Valid() && Bounded(c, s) && p < |s.threads|
    ensures s.threads[p].PushChecking? && s.tail <= s.threads[p].k + TWO32 / 2 ==>
              (LooksFull(c, s.threads[p].k, s.tail) <==> s.threads[p].k == s.head == s.tail + c.Size())
    ensures s.threads[p].PopChecking? && s.head < s.threads[p].k + TWO32 / 2 ==>
              (LooksEmpty(s.head, s.threads[p].k) <==> s.threads[p].k == s.tail == s.head)
  {
    SizeIsSmall(c);
  }

  /** An older copy can mislead: a try_push that sleeps after reading head while the tickets go
      round is refused, although the ring is empty. */
  lemma StaleCopyIsRefused<T(!new)>(c: Config, e: T) returns (ss: seq<QueueState<T>>, run: seq<Event<T>>)
    requires c.Valid()
    ensures Behaviour(c, ss, run) && TryOnly(run) && |run| > 0 && run[|run| - 1].p == 0
    ensures var s, t := ss[|run| - 1], ss[|run|];
            && s.threads == [PushChecking(0, e), Idle] && s.head == s.tail
            && t == s.(threads := [Idle, Idle])
  {
    var first, n := Init(c, 2, e), TWO32 - c.Size();
    var s := ReadsHead(c, e);
    SizeIsSmall(c);
    s := Cycled(c, first, s, PushChecking(0, e), e, n);
    RingCounts(c, s, PushChecking(0, e), n, n);
    TestsMean(c, 0, n);
    assert LooksFull(c, 0, n);
    hide Init, Ring, Sized, LooksFull, SignedDifference;
    var t := Step(c, s, 0, TryPop);
    assert t == s.(threads := [Idle, Idle]);
    ss, run :| Leads(c, ss, run, first, s);
    ss, run := Extended(c, ss, run, first, s, Event(0, TryPop), t);
  }

  lemma ReadsHead<T(!new)>(c: Config, e: T) returns (s: QueueState<T>)
    requires c.Valid()
    ensures Reaches(c, Init(c, 2, e), s) && Ring(c, s, PushChecking(0, e), 0, 0)
  {
    hide Slot, Word, SignedDifference, Pow2, Reaches;
    var first := Init(c, 2, e);
    ReachesItself(c, first);
    ReachesNext(c, first, first, 0, TryPush(e));
    s := Step(c, first, 0, TryPush(e));
    forall u | 0 <= u < c.Size() ensures Holds(c, s.states, u, 0) { WrapKeepsSlot(c, u); }
  }

  lemma Extended<T(!new)>(c: Config, ss: seq<QueueState<T>>, run: seq<Event<T>>, first: QueueState<T>,
                          s: QueueState<T>, e: Event<T>, t: QueueState<T>)
    returns (ss': seq<QueueState<T>>, run': seq<Event<T>>)
    requires Leads(c, ss, run, first, s) && Next(c, s, e, t) && (e.call.TryPush? || e.call.TryPop?)
    ensures Leads(c, ss', run', first, t) && run' == run + [e] && ss' == ss + [t]
  {
    hide Next;
    ss', run' := ss + [t], run + [e];
    forall k | 0 <= k < |run'| ensures Next(c, ss'[k], run'[k], ss'[k + 1]) {
      if k < |run| { assert Next(c, ss[k], run[k], ss[k + 1]); }
    }
  }

  /** What a call that begins does at once: the blocking forms take the next ticket, push with its
      argument; the try forms copy the counter as it is. */
  lemma CallsBegin<T(!new)>(c: Config, ss: seq<QueueState<T>>, run: seq<Event<T>>, k: nat)
    requires Behaviour(c, ss, run) && k < |run| && run[k].p < |ss[k].threads| && ss[k].threads[run[k].p] == Idle
    ensures run[k].p < |ss[k + 1].threads|
    ensures var s, t, call, ph := ss[k], ss[k + 1], run[k].call, ss[k + 1].threads[run[k].p];
            && (call.Push? ==> t.pushed == s.pushed + [call.arg] && ph == PushWaiting(s.head, call.arg))
            && (call.Pop? ==> t.tail == s.tail + 1 && ph == PopWaiting(s.tail))
            && (call.TryPush? ==> t.pushed == s.pushed && ph == PushChecking(s.head, call.arg))
            && (call.TryPop? ==> t.tail == s.tail && ph == PopChecking(s.tail))
  {
    hide Slot, Pow2;
    assert Next(c, ss[k], run[k], ss[k + 1]);
  }

  /** Undisturbed, try_push gets a ticket for its element exactly when the ring is not full, and
      otherwise leaves everything as it was. */
  lemma TryPushAlone<T>(c: Config, ss: seq<QueueState<T>>, run: seq<Event<T>>, p: nat, e: T)
    requires Path(c, ss, run) && |run| == 3 && run[0] == Event(p, TryPush(e)) && run[1].p == run[2].p == p
    requires p < |ss[0].threads| && ss[0].threads[p] == Idle && ss[0].tail <= ss[0].head <= ss[0].tail + c.Size()
    ensures p < |ss[3].threads|
    ensures if ss[0].head < ss[0].tail + c.Size() then
              ss[3].pushed == ss[0].pushed + [e] && ss[3].threads[p] == PushWaiting(ss[0].head, e)
            else ss[2] == ss[0]
  {
    assert Next(c, ss[0], run[0], ss[0 + 1]) && Next(c, ss[1], run[1], ss[1 + 1]) && Next(c, ss[2], run[2], ss[2 + 1]);
    SizeIsSmall(c);
    SmallDifference(ss[0].head, ss[0].tail);
    hide Slot, Word, SignedDifference, Pow2;
    assert ss[2].threads == ss[0].threads[p := ss[2].threads[p]];
  }

  /** And try_pop gets a ticket exactly when the ring is not empty. */
  lemma TryPopAlone<T>(c: Config, ss: seq<QueueState<T>>, run: seq<Event<T>>, p: nat)
    requires Path(c, ss, run) && |run| == 3 && run[0] == Event(p, TryPop) && run[1].p == run[2].p == p
    requires p < |ss[0].threads| && ss[0].threads[p] == Idle && ss[0].tail <= ss[0].head <= ss[0].tail + c.Size()
    ensures p < |ss[3].threads|
    ensures if ss[0].tail < ss[0].head then
              ss[3].tail == ss[0].tail + 1 && ss[3].threads[p] == PopWaiting(ss[0].tail)
            else ss[2] == ss[0]
  {
    assert Next(c, ss[0], run[0], ss[0 + 1]) && Next(c, ss[1], run[1], ss[1 + 1]) && Next(c, ss[2], run[2], ss[2 + 1]);
    SizeIsSmall(c);
    SmallDifference(ss[0].head, ss[0].tail);
    hide Slot, Word, SignedDifference, Pow2;
    assert ss[2].threads == ss[0].threads[p := ss[2].threads[p]];
  }
}
