/** One producer and one consumer using a ring buffer with no lock between them: every
    load of the head by the producer and every word access of sys_ring_buf_put and
    sys_ring_buf_get is a separate step, and the steps of the two sides interleave in any
    order. */
module RingSpsc {
  import opened CTypes
  import opened RingLayout
  import opened RingBuffer

  /** The producer is outside a put; has loaded the head once and found the buffer not empty;
      has loaded it twice; or has stored the first n words of an item. */
  datatype Producer =
    | Resting
    | NotEmpty(item: Item, h1: nat)
    | Compared(item: Item, h1: nat, h2: nat)
    | Storing(item: Item, n: nat)

  /** The consumer is outside a get, has seen a non-empty buffer, or has copied some words. */
  datatype Consumer = Waiting | Found(capacity: U8) | Copying(part: Item, capacity: U8)

  /** A put that was attempted, and whether the space test let it through. */
  datatype Offer = Offer(item: Item, taken: bool)

  /** once tells whether the space test loads the head only once; the code as written loads
      it up to three times. rooms are the capacities of the gets that delivered. */
  datatype State = State(
    once: bool, words: seq<Word>, head: nat, tail: nat,
    producer: Producer, consumer: Consumer,
    offers: seq<Offer>, delivered: seq<Item>, rooms: seq<U8>)

  datatype Step = BeginPut(item: Item) | PutStep | BeginGet(capacity: U8) | GetStep

  ghost predicate Initial(s: State) {
    && s.head < |s.words| <= 0x4000_0000 && s.tail == s.head
    && s.producer.Resting? && s.consumer.Waiting?
    && s.offers == [] && s.delivered == [] && s.rooms == []
  }

  predicate Enabled(s: State, step: Step) {
    && s.head < |s.words| && s.tail < |s.words|
    && match step
       case BeginPut(_) => s.producer.Resting?
       case PutStep => !s.producer.Resting?
       case BeginGet(_) => s.consumer.Waiting?
       case GetStep => !s.consumer.Waiting?
  }

  /** An index reduced to the ring: one wrap-around, unless an item larger than the ring was
      let in. */
  function Index(i: nat, size: nat): (r: nat)
    requires size > 0
    ensures r < size && (i < 2 * size ==> r == Wrap(i, size))
  {
    if i < 2 * size then Wrap(i, size) else i % size
  }

  lemma IndexIsModulo(i: nat, size: nat)
    requires size > 0
    ensures Index(i, size) == i % size
  {
    if i < 2 * size { ModIsWrap(i, size); }
  }

  /** The space test lets the item through or not. */
  function Decide(s: State, item: Item, space: int): State {
    var taken := space >= |item.data| + 1;
    s.(offers := s.offers + [Offer(item, taken)], producer := if taken then Storing(item, 0) else Resting)
  }

  /** The producer goes on with its put. */
  function NextPut(s: State): State
    requires Enabled(s, PutStep)
  {
    match s.producer
    case Resting => s
    case NotEmpty(item, h1) => s.(producer := Compared(item, h1, s.head))
    case Compared(item, h1, h2) => Decide(s, item, TornSpace(|s.words|, s.tail, h1, h2, s.head))
    case Storing(item, n) =>
      var code := Encode(item);
      if n < |code| then
        s.(words := s.words[Index(s.tail + n, |s.words|) := code[n]], producer := Storing(item, n + 1))
      else
        s.(tail := Index(s.tail + |code|, |s.words|), producer := Resting)
  }

  function Next(s: State, step: Step): State
    requires Enabled(s, step)
  {
    match step
    case BeginPut(item) =>
      if s.once || s.head == s.tail then Decide(s, item, Space(|s.words|, s.head, s.tail))
      else s.(producer := NotEmpty(item, s.head))
    case PutStep => NextPut(s)
    case BeginGet(capacity) =>
      s.(consumer := if s.head == s.tail then Waiting else Found(capacity))
    case GetStep =>
      var header := Unpack(s.words[s.head]);
      match s.consumer
      case Found(capacity) =>
        s.(consumer := if header.length > capacity then Waiting
                       else Copying(Item(header.tag, header.value, []), capacity))
      case Copying(part, capacity) =>
        var n := |part.data|;
        if n < header.length then
          s.(consumer := Copying(part.(data := part.data + [s.words[Index(n + s.head + 1, |s.words|)]]), capacity))
        else
          s.(head := Index(s.head + header.length + 1, |s.words|), consumer := Waiting,
             delivered := s.delivered + [part], rooms := s.rooms + [capacity])
  }

  /** The step puts at most longest words of data. */
  predicate Short(step: Step, longest: nat) { step.BeginPut? ==> |step.item.data| <= longest }

  /** A run in which no item put carries more than longest words of data. */
  ghost predicate Run(s: State, longest: nat, steps: seq<Step>, t: State)
    decreases |steps|
  {
    if steps == [] then s == t
    else Enabled(s, steps[0]) && Short(steps[0], longest) && Run(Next(s, steps[0]), longest, steps[1..], t)
  }

  ghost predicate Reach(s: State, longest: nat, t: State) { exists steps :: Run(s, longest, steps, t) }

  /** The step is the third load of the head, the head has wrapped since the second, and
      the item does not fit. */
  predicate Torn(s: State, step: Step) {
    && step == PutStep && s.producer.Compared? && s.head <= s.tail < s.producer.h2 < |s.words|
    && Space(|s.words|, s.head, s.tail) < |s.producer.item.data| + 1
  }

  /** A run in which no put sees the head wrap between its second and its third load, or at
      least none whose item does not fit. */
  ghost predicate Clean(s: State, steps: seq<Step>)
    decreases |steps|
  {
    steps == [] || (Enabled(s, steps[0]) && !Torn(s, steps[0]) && Clean(Next(s, steps[0]), steps[1..]))
  }

  /** The items whose put passed the space test, in order. */
  function Taken(offers: seq<Offer>): seq<Item> {
    if offers == [] then
      []
    else
      var rest, last := offers[..|offers| - 1], offers[|offers| - 1];
      if last.taken then Taken(rest) + [last.item] else Taken(rest)
  }

  function InFlight(p: Producer): seq<Item> {
    if p.Storing? then [p.item] else []
  }

  /** The head has gone from h to where it is through words in use. */
  predicate Passed(size: nat, h: nat, head: nat, tail: nat) {
    h < size && head < size && tail < size && Used(size, head, tail) <= Used(size, h, tail)
  }

  /** The producer's words sit beyond q, and the heads it has loaded are behind the head. */
  ghost predicate ProducerOk(words: seq<Word>, head: nat, tail: nat, q: seq<Item>, p: Producer, once: bool) {
    && (p.NotEmpty? ==> p.h1 != tail && Passed(|words|, p.h1, head, tail))
    && (p.Compared? ==> p.h1 != tail && Passed(|words|, p.h1, p.h2, tail) && Passed(|words|, p.h2, head, tail))
    && (once ==> !p.Compared? && !p.NotEmpty?)
    && (p.Storing? ==> Stored(words, head, tail, q, Encode(p.item), p.n))
  }

  /** The consumer has a faithful copy of part of the oldest item. */
  ghost predicate ConsumerOk(q: seq<Item>, c: Consumer) {
    && (!c.Waiting? ==> q != [])
    && (c.Copying? ==> c.part == q[0].(data := c.part.data) && c.part.data <= q[0].data && |q[0].data| <= c.capacity)
  }

  /** The buffer holds q, which with what is delivered and in flight is what was taken. */
  ghost predicate Inv(s: State, q: seq<Item>) {
    && Holds(s.words, s.head, s.tail, q) && |s.words| <= 0x4000_0000
    && Taken(s.offers) == s.delivered + q + InFlight(s.producer)
    && ProducerOk(s.words, s.head, s.tail, q, s.producer, s.once)
    && ConsumerOk(q, s.consumer)
  }

  lemma StoreShape(s: State, q: seq<Item>)
    requires Inv(s, q) && Enabled(s, PutStep) && s.producer.Storing? && s.producer.n < |Encode(s.producer.item)|
    ensures var item, n := s.producer.item, s.producer.n;
      var words := s.words[Wrap(s.tail + n, |s.words|) := Encode(item)[n]];
      && Next(s, PutStep) == s.(words := words, producer := Storing(item, n + 1))
      && Stored(words, s.head, s.tail, q, Encode(item), n + 1)
  {
    StoredStep(s.words, s.head, s.tail, q, Encode(s.producer.item), s.producer.n);
  }

  lemma StoreKeeps(s: State, q: seq<Item>)
    requires Inv(s, q) && Enabled(s, PutStep) && s.producer.Storing? && s.producer.n < |Encode(s.producer.item)|
    ensures Inv(Next(s, PutStep), q)
  {
    StoreShape(s, q);
  }

  lemma PublishKeeps(s: State, q: seq<Item>)
    requires Inv(s, q) && Enabled(s, PutStep) && s.producer.Storing? && s.producer.n >= |Encode(s.producer.item)|
    ensures Inv(Next(s, PutStep), q + [s.producer.item])
  {
    var q' := q + [s.producer.item];
    HoldsAppend(s.words, s.head, s.tail, q, s.producer.item);
    assert s.delivered + q' + [] == s.delivered + q + [s.producer.item];
    if !s.consumer.Waiting? { assert q'[0] == q[0]; }
  }

  lemma CopyKeeps(s: State, q: seq<Item>)
    requires Inv(s, q) && Enabled(s, GetStep)
    requires s.consumer.Copying? ==> |s.consumer.part.data| < |q[0].data|
    ensures Inv(Next(s, GetStep), q)
  {
    HoldsRemove(s.words, s.head, s.tail, q);
    if s.consumer.Copying? {
      var n := |s.consumer.part.data|;
      assert s.words[Wrap(s.head + (n + 1), |s.words|)] == Encode(q[0])[n + 1] == q[0].data[n];
    }
  }

  lemma RemoveShape(s: State, q: seq<Item>)
    requires Inv(s, q) && Enabled(s, GetStep)
    requires s.consumer.Copying? && |s.consumer.part.data| >= |q[0].data|
    ensures |Encode(q[0])| <= Used(|s.words|, s.head, s.tail)
    ensures var head := Wrap(s.head + |Encode(q[0])|, |s.words|);
      && Next(s, GetStep) == s.(head := head, consumer := Waiting, delivered := s.delivered + [q[0]],
                                rooms := s.rooms + [s.consumer.capacity])
      && Holds(s.words, head, s.tail, q[1..])
  {
    HoldsRemove(s.words, s.head, s.tail, q);
    assert s.consumer.part == q[0];
  }

  lemma RemoveKeeps(s: State, q: seq<Item>)
    requires Inv(s, q) && Enabled(s, GetStep)
    requires s.consumer.Copying? && |s.consumer.part.data| >= |q[0].data|
    ensures Inv(Next(s, GetStep), q[1..])
  {
    RemoveShape(s, q);
    TakenKept(s.delivered, q, InFlight(s.producer));
    ProducerKept(s.words, s.head, s.tail, q, s.producer, s.once);
  }

  lemma TakenKept(delivered: seq<Item>, q: seq<Item>, rest: seq<Item>)
    requires q != []
    ensures delivered + q + rest == (delivered + [q[0]]) + q[1..] + rest
  {
    assert delivered + q == (delivered + [q[0]]) + q[1..];
  }

  /** The producer's side stays in order when the oldest item goes. */
  lemma ProducerKept(words: seq<Word>, head: nat, tail: nat, q: seq<Item>, p: Producer, once: bool)
    requires Holds(words, head, tail, q) && q != [] && ProducerOk(words, head, tail, q, p, once)
    requires |Encode(q[0])| <= Used(|words|, head, tail)
    requires Holds(words, Wrap(head + |Encode(q[0])|, |words|), tail, q[1..])
    ensures ProducerOk(words, Wrap(head + |Encode(q[0])|, |words|), tail, q[1..], p, once)
  {
  }

  /** A decision that lets through only what fits. */
  lemma DecideKeeps(s: State, q: seq<Item>, item: Item, space: int)
    requires Inv(s, q) && !s.producer.Storing?
    requires space >= |item.data| + 1 ==> Space(|s.words|, s.head, s.tail) >= |item.data| + 1
    ensures Inv(Decide(s, item, space), q)
  {
    var t := Decide(s, item, space);
    assert t.offers[..|t.offers| - 1] == s.offers;
  }

  /** The space test on separate loads lets through what does not fit only when it is torn. */
  lemma LoadKeeps(s: State, q: seq<Item>)
    requires Inv(s, q) && Enabled(s, PutStep) && (s.producer.NotEmpty? || s.producer.Compared?)
    requires !Torn(s, PutStep)
    ensures Inv(Next(s, PutStep), q)
  {
    if s.producer.Compared? {
      var h1, h2 := s.producer.h1, s.producer.h2;
      TornSpaceExact(|s.words|, s.tail, h1, h2, s.head);
      DecideKeeps(s, q, s.producer.item, TornSpace(|s.words|, s.tail, h1, h2, s.head));
    }
  }

  /** Every step of either side keeps the invariant, except a torn space test. */
  lemma StepKeeps(s: State, q: seq<Item>, step: Step) returns (q': seq<Item>)
    requires Inv(s, q) && Enabled(s, step) && !Torn(s, step)
    ensures Inv(Next(s, step), q') && Next(s, step).once == s.once
  {
    match step
    case BeginPut(item) =>
      DecideKeeps(s, q, item, Space(|s.words|, s.head, s.tail));
      q' := q;
    case PutStep =>
      if !s.producer.Storing? {
        LoadKeeps(s, q);
        q' := q;
      } else if s.producer.n < |Encode(s.producer.item)| {
        StoreKeeps(s, q);
        q' := q;
      } else {
        PublishKeeps(s, q);
        q' := q + [s.producer.item];
      }
    case BeginGet(capacity) =>
      HoldsEmpty(s.words, s.head, s.tail, q);
      q' := q;
    case GetStep =>
      if s.consumer.Copying? && |s.consumer.part.data| >= |q[0].data| {
        RemoveKeeps(s, q);
        q' := q[1..];
      } else {
        CopyKeeps(s, q);
        q' := q;
      }
  }

  /** Neither side is stuck, and the indices it computes need one wrap-around at most. */
  ghost predicate Free(s: State) {
    && (!s.producer.Resting? ==> Enabled(s, PutStep))
    && (!s.consumer.Waiting? ==> Enabled(s, GetStep) && s.head + Unpack(s.words[s.head]).length + 1 < 2 * |s.words|)
    && (s.producer.Storing? ==> s.tail + |Encode(s.producer.item)| < 2 * |s.words|)
  }

  lemma NeverStuck(s: State, q: seq<Item>)
    requires Inv(s, q)
    ensures Free(s)
  {
    if !s.consumer.Waiting? { HoldsRemove(s.words, s.head, s.tail, q); }
  }

  /** What a caller can see to: one load of the head, or items without data. A ring of one
      word takes no item at all. */
  predicate Careful(once: bool, longest: nat, size: nat) { once || longest == 0 || size == 1 }

  predicate Sized(p: Producer, longest: nat) { !p.Resting? ==> |p.item.data| <= longest }

  /** Then no space test is torn: where the head wrapped there is room for one word. */
  lemma NeverTorn(s: State, q: seq<Item>, longest: nat, step: Step)
    requires Inv(s, q) && Sized(s.producer, longest) && Careful(s.once, longest, |s.words|)
    ensures !Torn(s, step)
  {
  }

  lemma StepSized(s: State, longest: nat, step: Step)
    requires Enabled(s, step) && Short(step, longest) && Sized(s.producer, longest)
    ensures Sized(Next(s, step).producer, longest) && |Next(s, step).words| == |s.words|
  {
  }

  /** Every item delivered had room in the data area of its get. */
  ghost predicate Roomy(s: State) {
    |s.rooms| == |s.delivered| && forall i :: 0 <= i < |s.rooms| ==> |s.delivered[i].data| <= s.rooms[i]
  }

  lemma StepRoomy(s: State, q: seq<Item>, step: Step)
    requires Inv(s, q) && Enabled(s, step) && Roomy(s)
    ensures Roomy(Next(s, step))
  {
    if step == GetStep && s.consumer.Copying? && |s.consumer.part.data| >= |q[0].data| {
      RemoveShape(s, q);
    } else if step == GetStep {
      HoldsRemove(s.words, s.head, s.tail, q);
    }
  }

  lemma {:induction false} RunKeeps(s: State, q: seq<Item>, longest: nat, steps: seq<Step>, t: State)
    returns (q': seq<Item>)
    requires Inv(s, q) && Sized(s.producer, longest) && Run(s, longest, steps, t)
    requires Careful(s.once, longest, |s.words|) || Clean(s, steps)
    ensures Inv(t, q') && Sized(t.producer, longest) && (Roomy(s) ==> Roomy(t))
    decreases |steps|
  {
    if steps == [] {
      q' := q;
    } else {
      if Careful(s.once, longest, |s.words|) { NeverTorn(s, q, longest, steps[0]); }
      var r := StepKeeps(s, q, steps[0]);
      StepSized(s, longest, steps[0]);
      if Roomy(s) { StepRoomy(s, q, steps[0]); }
      q' := RunKeeps(Next(s, steps[0]), r, longest, steps[1..], t);
    }
  }

  /** What is promised of a state: the consumer has taken out a prefix, unchanged and in
      order, of what the accepted puts put in; the rest is what the words between head and
      tail encode, plus the item being stored. */
  ghost predicate Sound(t: State) {
    && t.delivered <= Taken(t.offers)
    && exists q :: Holds(t.words, t.head, t.tail, q) && Taken(t.offers) == t.delivered + q + InFlight(t.producer)
  }

  lemma InvSound(t: State, q: seq<Item>)
    requires Inv(t, q)
    ensures Sound(t) && Free(t)
  {
    NeverStuck(t, q);
    assert Taken(t.offers) == t.delivered + (q + InFlight(t.producer));
  }

  lemma InitialInv(s: State)
    requires Initial(s)
    ensures Inv(s, [])
  {
  }

  /** What is promised of every reachable state. */
  ghost predicate Promised(t: State) { Sound(t) && Free(t) && Roomy(t) }

  /** For one producer and one consumer no lock is needed, in every interleaving in which no
      put sees the head wrap between its second and its third load (or at least none whose
      item does not fit); and neither side is ever stuck. */
  lemma LockFree(s: State, longest: nat, steps: seq<Step>, t: State)
    requires Initial(s) && Run(s, longest, steps, t)
    requires Careful(s.once, longest, |s.words|) || Clean(s, steps)
    ensures Promised(t)
  {
    InitialInv(s);
    var q := RunKeeps(s, [], longest, steps, t);
    InvSound(t, q);
  }

  // ---------------------------------------------------------------- the torn space test

  lemma {:induction false} RunSnoc(s: State, longest: nat, steps: seq<Step>, t: State, step: Step)
    requires Run(s, longest, steps, t) && Enabled(t, step) && Short(step, longest)
    ensures Run(s, longest, steps + [step], Next(t, step))
    decreases |steps|
  {
    if steps == [] {
      assert ([] + [step])[1..] == [];
    } else {
      RunSnoc(Next(s, steps[0]), longest, steps[1..], t, step);
      assert (steps + [step])[1..] == steps[1..] + [step];
    }
  }

  lemma ReachNext(s: State, longest: nat, t: State, step: Step)
    requires Reach(s, longest, t) && Enabled(t, step) && Short(step, longest)
    ensures Reach(s, longest, Next(t, step))
  {
    var steps :| Run(s, longest, steps, t);
    RunSnoc(s, longest, steps, t, step);
  }

  lemma ReachSelf(s: State, longest: nat)
    ensures Reach(s, longest, s)
  {
    assert Run(s, longest, [], s);
  }

  /** A torn space test lets the item through. */
  lemma TornAdmits(s: State)
    requires Torn(s, PutStep) && s.producer.h1 != s.tail && |s.words| <= 0x4000_0000
    ensures Next(s, PutStep) == s.(producer := Storing(s.producer.item, 0),
                                   offers := s.offers + [Offer(s.producer.item, true)])
  {
  }

  /** The producer alone completes its put, whatever it overwrites. */
  lemma {:induction false} PutCompletes(s0: State, longest: nat, s: State) returns (t: State)
    requires Reach(s0, longest, s) && s.producer.Storing? && s.head < |s.words| && s.tail < |s.words|
    ensures Reach(s0, longest, t) && t.producer == Resting && t.tail < |t.words|
    ensures |t.words| == |s.words| && t.head == s.head && t.offers == s.offers && t.delivered == s.delivered
    decreases |Encode(s.producer.item)| - s.producer.n
  {
    t := Next(s, PutStep);
    ReachNext(s0, longest, s, PutStep);
    if s.producer.n < |Encode(s.producer.item)| {
      t := PutCompletes(s0, longest, t);
    }
  }

  /** No queue that ends in an item for which there was no room can be held. */
  lemma TooLong(s: State, q: seq<Item>, item: Item, t: State)
    requires Inv(s, q) && !s.producer.Storing? && Space(|s.words|, s.head, s.tail) < |item.data| + 1
    requires |t.words| == |s.words| && t.producer == Resting && t.delivered == s.delivered
    requires t.offers == s.offers + [Offer(item, true)]
    ensures !Sound(t)
  {
    assert t.offers[..|s.offers|] == s.offers;
    forall p | Taken(t.offers) == t.delivered + p + [] ensures !Holds(t.words, t.head, t.tail, p) {
      Cancelled(s.delivered, q, item, p);
      FlattenAppend(q, item);
    }
  }

  lemma Cancelled(delivered: seq<Item>, q: seq<Item>, item: Item, p: seq<Item>)
    requires delivered + q + [] + [item] == delivered + p + []
    ensures p == q + [item]
  {
    assert p == (delivered + p + [])[|delivered|..];
    assert q + [item] == (delivered + q + [] + [item])[|delivered|..];
  }

  /** From a reachable torn space test the producer alone reaches a state in which the ring
      no longer holds what was accepted. */
  lemma TornBreaks(s0: State, longest: nat, s: State, q: seq<Item>) returns (t: State)
    requires Reach(s0, longest, s) && Inv(s, q) && Torn(s, PutStep)
    ensures Reach(s0, longest, t) && !Sound(t)
  {
    TornAdmits(s);
    ReachNext(s0, longest, s, PutStep);
    t := PutCompletes(s0, longest, Next(s, PutStep));
    TooLong(s, q, s.producer.item, t);
  }

  /** Before the first torn space test of a run the invariant holds. */
  lemma {:induction false} FirstTorn(s0: State, longest: nat, s: State, q: seq<Item>, steps: seq<Step>, t: State)
    returns (u: State, r: seq<Item>)
    requires Reach(s0, longest, s) && Inv(s, q) && Run(s, longest, steps, t) && Torn(t, PutStep)
    ensures Reach(s0, longest, u) && Inv(u, r) && Torn(u, PutStep)
    decreases |steps|
  {
    if Torn(s, PutStep) {
      u, r := s, q;
    } else {
      r := StepKeeps(s, q, steps[0]);
      ReachNext(s0, longest, s, steps[0]);
      u, r := FirstTorn(s0, longest, Next(s, steps[0]), r, steps[1..], t);
    }
  }

  /** A run without torn space tests is clean. */
  lemma {:induction false} Untorn(s0: State, longest: nat, s: State, steps: seq<Step>, t: State)
    requires Reach(s0, longest, s) && Run(s, longest, steps, t)
    requires forall u :: Reach(s0, longest, u) ==> !Torn(u, PutStep)
    ensures Clean(s, steps)
    decreases |steps|
  {
    if steps != [] {
      ReachNext(s0, longest, s, steps[0]);
      Untorn(s0, longest, Next(s, steps[0]), steps[1..], t);
    }
  }

  /** From every initial state: every reachable state is as promised if and only if no torn
      space test is reachable. */
  lemma TornExactly(s0: State, longest: nat)
    requires Initial(s0)
    ensures (forall t :: Reach(s0, longest, t) ==> Promised(t))
       <==> (forall t :: Reach(s0, longest, t) ==> !Torn(t, PutStep))
  {
    ReachSelf(s0, longest);
    InitialInv(s0);
    if t :| Reach(s0, longest, t) && Torn(t, PutStep) {
      var steps :| Run(s0, longest, steps, t);
      var s, q := FirstTorn(s0, longest, s0, [], steps, t);
      var u := TornBreaks(s0, longest, s, q);
    } else {
      forall t | Reach(s0, longest, t) ensures Promised(t) {
        var steps :| Run(s0, longest, steps, t);
        Untorn(s0, longest, s0, steps, t);
        LockFree(s0, longest, steps, t);
      }
    }
  }

  // ---------------------------------------------------------------- a torn test from every start

  const PLAIN: Item := Item(0, 0, [])
  const PAIR: Item := Item(0, 0, [0])

  /** s is reached, holds q, and the producer rests. */
  ghost predicate At(s0: State, longest: nat, s: State, q: seq<Item>) {
    Reach(s0, longest, s) && Inv(s, q) && !s.once && s.producer.Resting?
  }

  /** t is s but for the words, the tail and the producer. */
  ghost predicate Put(s: State, t: State) {
    |t.words| == |s.words| && t.once == s.once && t.head == s.head && t.consumer == s.consumer
  }

  /** A put into a ring that is not empty, up to its second load. */
  lemma Loaded(s0: State, longest: nat, s: State, q: seq<Item>, item: Item) returns (t: State)
    requires At(s0, longest, s, q) && s.head != s.tail && |item.data| <= longest
    ensures t == s.(producer := Compared(item, s.head, s.head)) && Reach(s0, longest, t) && Inv(t, q)
  {
    var u := s.(producer := NotEmpty(item, s.head));
    ReachNext(s0, longest, s, BeginPut(item));
    ReachNext(s0, longest, u, PutStep);
    t := s.(producer := Compared(item, s.head, s.head));
  }

  lemma PlainDecided(s: State, q: seq<Item>)
    requires Inv(s, q) && s.producer == Compared(PLAIN, s.head, s.head)
    requires Space(|s.words|, s.head, s.tail) >= 1
    ensures var t := Next(s, PutStep);
      t == s.(producer := Storing(PLAIN, 0), offers := t.offers) && Inv(t, q)
  {
    TornSpaceExact(|s.words|, s.tail, s.head, s.head, s.head);
    LoadKeeps(s, q);
  }

  lemma PlainBegun(s: State, q: seq<Item>)
    requires Inv(s, q) && s.producer.Resting? && s.head == s.tail && Space(|s.words|, s.head, s.tail) >= 1
    ensures var t := Next(s, BeginPut(PLAIN));
      t == s.(producer := Storing(PLAIN, 0), offers := t.offers) && Inv(t, q)
  {
    DecideKeeps(s, q, PLAIN, Space(|s.words|, s.head, s.tail));
  }

  lemma PlainAdmitted(s0: State, longest: nat, s: State, q: seq<Item>) returns (t: State)
    requires At(s0, longest, s, q) && Space(|s.words|, s.head, s.tail) >= 1
    ensures Reach(s0, longest, t) && Inv(t, q) && t == s.(producer := Storing(PLAIN, 0), offers := t.offers)
  {
    if s.head == s.tail {
      PlainBegun(s, q);
      ReachNext(s0, longest, s, BeginPut(PLAIN));
      t := Next(s, BeginPut(PLAIN));
    } else {
      var u := Loaded(s0, longest, s, q, PLAIN);
      PlainDecided(u, q);
      ReachNext(s0, longest, u, PutStep);
      t := Next(u, PutStep);
    }
  }

  lemma PlainStored(s: State, q: seq<Item>)
    requires Inv(s, q) && s.producer == Storing(PLAIN, 0)
    ensures var t := Next(s, PutStep);
      t == s.(producer := Storing(PLAIN, 1), words := t.words) && |t.words| == |s.words| && Inv(t, q)
  {
    StoreKeeps(s, q);
  }

  lemma PlainPublished(s: State, q: seq<Item>)
    requires Inv(s, q) && s.producer == Storing(PLAIN, 1)
    ensures var t := Next(s, PutStep);
      t == s.(producer := Resting, tail := Wrap(s.tail + 1, |s.words|)) && Inv(t, q + [PLAIN])
  {
    PublishKeeps(s, q);
  }

  /** An item without data goes in where there is room for it. */
  lemma PlainPut(s0: State, longest: nat, s: State, q: seq<Item>) returns (t: State)
    requires At(s0, longest, s, q) && Space(|s.words|, s.head, s.tail) >= 1
    ensures At(s0, longest, t, q + [PLAIN]) && Put(s, t) && t.tail == Wrap(s.tail + 1, |s.words|)
  {
    var u := PlainAdmitted(s0, longest, s, q);
    PlainStored(u, q);
    ReachNext(s0, longest, u, PutStep);
    var v := Next(u, PutStep);
    PlainPublished(v, q);
    ReachNext(s0, longest, v, PutStep);
    t := Next(v, PutStep);
  }

  lemma PlainFound(s: State, q: seq<Item>)
    requires Inv(s, q) && s.consumer.Waiting? && q != [] && q[0].data == []
    ensures Next(s, BeginGet(0)) == s.(consumer := Found(0)) && Inv(s.(consumer := Found(0)), q)
    ensures Next(s.(consumer := Found(0)), GetStep) == s.(consumer := Copying(q[0], 0))
    ensures Inv(s.(consumer := Copying(q[0], 0)), q)
  {
    HoldsEmpty(s.words, s.head, s.tail, q);
    HoldsRemove(s.words, s.head, s.tail, q);
  }

  lemma PlainRemoved(s: State, q: seq<Item>)
    requires Inv(s, q) && q != [] && q[0].data == [] && s.consumer == Copying(q[0], 0)
    ensures var t := Next(s, GetStep);
      && t == s.(head := Wrap(s.head + 1, |s.words|), consumer := Waiting, delivered := t.delivered, rooms := t.rooms)
      && Inv(t, q[1..])
  {
    RemoveShape(s, q);
    RemoveKeeps(s, q);
  }

  /** The oldest item, without data, comes out, whatever the producer is doing. */
  lemma PlainGet(s0: State, longest: nat, s: State, q: seq<Item>) returns (t: State)
    requires Reach(s0, longest, s) && Inv(s, q) && s.consumer.Waiting? && q != [] && q[0].data == []
    ensures Reach(s0, longest, t) && Inv(t, q[1..]) && t.head == Wrap(s.head + 1, |s.words|)
    ensures |t.words| == |s.words| && t.once == s.once && t.tail == s.tail
    ensures t.producer == s.producer && t.consumer.Waiting?
  {
    PlainFound(s, q);
    ReachNext(s0, longest, s, BeginGet(0));
    ReachNext(s0, longest, s.(consumer := Found(0)), GetStep);
    var u := s.(consumer := Copying(q[0], 0));
    PlainRemoved(u, q);
    ReachNext(s0, longest, u, GetStep);
    t := Next(u, GetStep);
  }

  /** An empty ring can be brought to its last word. */
  lemma {:induction false} LastWord(s0: State, longest: nat, s: State) returns (t: State)
    requires At(s0, longest, s, []) && s.consumer.Waiting? && |s.words| >= 2
    ensures At(s0, longest, t, []) && t.consumer.Waiting? && |t.words| == |s.words| && t.head == |t.words| - 1
    decreases |s.words| - s.head
  {
    if s.head == |s.words| - 1 {
      t := s;
    } else {
      HoldsEmpty(s.words, s.head, s.tail, []);
      var u := PlainPut(s0, longest, s, []);
      t := PlainGet(s0, longest, u, [] + [PLAIN]);
      t := LastWord(s0, longest, t);
    }
  }

  /** And filled with items without data. */
  lemma {:induction false} Filled(s0: State, longest: nat, s: State, q: seq<Item>) returns (t: State, r: seq<Item>)
    requires At(s0, longest, s, q) && (q != [] ==> q[0].data == [])
    ensures At(s0, longest, t, r) && Put(s, t) && Space(|t.words|, t.head, t.tail) == 0 && (r != [] ==> r[0].data == [])
    decreases Space(|s.words|, s.head, s.tail)
  {
    if Space(|s.words|, s.head, s.tail) == 0 {
      t, r := s, q;
    } else {
      t := PlainPut(s0, longest, s, q);
      t, r := Filled(s0, longest, t, q + [PLAIN]);
    }
  }

  /** With the ring full and its head at the last word, an item is taken out between the
      second and the third load of a put of two words. */
  lemma TornReached(s0: State, longest: nat, s: State, q: seq<Item>) returns (t: State, r: seq<Item>)
    requires At(s0, longest, s, q) && s.consumer.Waiting? && q != [] && q[0].data == [] && longest > 0
    requires s.head == |s.words| - 1 && Space(|s.words|, s.head, s.tail) == 0
    ensures Reach(s0, longest, t) && Inv(t, r) && Torn(t, PutStep)
  {
    HoldsEmpty(s.words, s.head, s.tail, q);
    var u := Loaded(s0, longest, s, q, PAIR);
    t := PlainGet(s0, longest, u, q);
    r := q[1..];
  }

  /** With separate loads, from every initial state of a ring of at least two words, items of
      one word of data are enough to lose what was accepted. */
  lemma ItemsLost(s0: State, longest: nat) returns (t: State)
    requires Initial(s0) && !Careful(s0.once, longest, |s0.words|)
    ensures Reach(s0, longest, t) && !Sound(t)
  {
    ReachSelf(s0, longest);
    InitialInv(s0);
    var s := LastWord(s0, longest, s0);
    var full, q := Filled(s0, longest, s, []);
    HoldsEmpty(full.words, full.head, full.tail, q);
    var torn, r := TornReached(s0, longest, full, q);
    t := TornBreaks(s0, longest, torn, r);
  }

  /** For every initial state and every bound on the data of an item: without a lock every
      interleaving keeps what is promised if and only if the space test loads the head once,
      or no item carries data, or the ring has a single word and takes no item. */
  lemma LockFreeExactly(s0: State, longest: nat)
    requires Initial(s0)
    ensures (forall t :: Reach(s0, longest, t) ==> Promised(t))
       <==> s0.once || longest == 0 || |s0.words| == 1
  {
    if Careful(s0.once, longest, |s0.words|) {
      forall t | Reach(s0, longest, t) ensures Promised(t) {
        var steps :| Run(s0, longest, steps, t);
        LockFree(s0, longest, steps, t);
      }
    } else {
      var t := ItemsLost(s0, longest);
    }
  }

  // ---------------------------------------------------------------- a record overwritten

  const A: Item := Item(1, 0, [])
  const B: Item := Item(2, 0, [])
  const C: Item := Item(3, 0, [7, 7, 7])

  const EMPTY := State(false, [0, 0, 0, 0], 3, 3, Resting, Waiting, [], [], [])

  /** A and B stored in a ring of four words, B behind the wrap. */
  const QUEUED := State(false, [2, 0, 0, 1], 3, 1, Resting, Waiting, [Offer(A, true), Offer(B, true)], [], [])

  /** C admitted although only two words are free. */
  const ADMITTED := State(false, [2, 0, 0, 1], 0, 1, Storing(C, 0), Waiting,
                          [Offer(A, true), Offer(B, true), Offer(C, true)], [A], [0])

  const COMPARED := QUEUED.(producer := Compared(C, 3, 3))

  const FIRST := State(false, [0, 0, 0, 1], 3, 0, Resting, Waiting, [Offer(A, true)], [], [])

  lemma FirstReached()
    ensures Reach(EMPTY, 3, FIRST)
  {
    ReachSelf(EMPTY, 3);
    ReachNext(EMPTY, 3, EMPTY, BeginPut(A));
    var s1 := Next(EMPTY, BeginPut(A));
    ReachNext(EMPTY, 3, s1, PutStep);
    var s2 := Next(s1, PutStep);
    ReachNext(EMPTY, 3, s2, PutStep);
    var s3 := Next(s2, PutStep);
    assert s3 == FIRST;
  }

  lemma QueuedReached()
    ensures Reach(EMPTY, 3, QUEUED)
  {
    FirstReached();
    ReachNext(EMPTY, 3, FIRST, BeginPut(B));
    var s4 := Next(FIRST, BeginPut(B));
    ReachNext(EMPTY, 3, s4, PutStep);
    var s5 := Next(s4, PutStep);
    ReachNext(EMPTY, 3, s5, PutStep);
    var s6 := Next(s5, PutStep);
    assert s6.producer == Storing(B, 0);
    ReachNext(EMPTY, 3, s6, PutStep);
    var s7 := Next(s6, PutStep);
    ReachNext(EMPTY, 3, s7, PutStep);
    assert Next(s7, PutStep) == QUEUED;
  }

  lemma ComparedReached()
    ensures Reach(EMPTY, 3, COMPARED)
  {
    QueuedReached();
    ReachNext(EMPTY, 3, QUEUED, BeginPut(C));
    var s1 := Next(QUEUED, BeginPut(C));
    ReachNext(EMPTY, 3, s1, PutStep);
    var s2 := Next(s1, PutStep);
    assert s2 == COMPARED;
  }

  /** A is taken out between the second and the third load of C's put. */
  lemma AdmittedReached()
    ensures Reach(EMPTY, 3, ADMITTED)
  {
    ComparedReached();
    ReachNext(EMPTY, 3, COMPARED, BeginGet(0));
    var s3 := Next(COMPARED, BeginGet(0));
    ReachNext(EMPTY, 3, s3, GetStep);
    var s4 := Next(s3, GetStep);
    assert s4.consumer == Copying(A, 0);
    ReachNext(EMPTY, 3, s4, GetStep);
    var s5 := Next(s4, GetStep);
    assert s5.head == 0 && s5.delivered == [A] && s5.producer == Compared(C, 3, 3);
    ReachNext(EMPTY, 3, s5, PutStep);
    assert Next(s5, PutStep) == ADMITTED;
  }

  /** The code as written, without a lock: a reachable state in which a queued record has
      been overwritten. */
  lemma RecordOverwritten() returns (t: State)
    ensures Initial(EMPTY) && Reach(EMPTY, 3, t) && !Sound(t)
  {
    AdmittedReached();
    ReachNext(EMPTY, 3, ADMITTED, PutStep);
    var s1 := Next(ADMITTED, PutStep);
    ReachNext(EMPTY, 3, s1, PutStep);
    var s2 := Next(s1, PutStep);
    ReachNext(EMPTY, 3, s2, PutStep);
    var s3 := Next(s2, PutStep);
    assert s3.producer == Storing(C, 3) && s3.words[0] == 2;
    ReachNext(EMPTY, 3, s3, PutStep);
    t := Next(s3, PutStep);
    assert t.words[0] == 7;
    forall q | Taken(t.offers) == t.delivered + q + InFlight(t.producer) ensures !Holds(t.words, t.head, t.tail, q) {
      TakenThree();
      assert |q| == 1 && q[0] == (t.delivered + q + InFlight(t.producer))[1] == B;
      assert q == [B] && Flatten(q)[0] == Encode(B)[0] == 2;
      assert t.words[Wrap(t.head + 0, |t.words|)] != Flatten(q)[0];
    }
  }

  lemma TakenThree()
    ensures Taken([Offer(A, true), Offer(B, true), Offer(C, true)]) == [A, B, C]
  {
    var offers := [Offer(A, true), Offer(B, true), Offer(C, true)];
    assert offers[..2] == [Offer(A, true), Offer(B, true)] && offers[..2][..1] == [Offer(A, true)];
    assert Taken(offers[..2][..1]) == [A] by { assert [Offer(A, true)][..0] == []; }
    assert Taken(offers[..2]) == [A, B];
  }
}
