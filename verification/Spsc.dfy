/**
 The ring buffer under two threads: one producer and one consumer whose index loads, slot
 accesses and index stores interleave in any order. A load of the other side's index may
 show an old value, though never an older one than an earlier load did.
 */
module Spsc {
  import opened Arithmetic
  import opened Wrappers
  import opened RingBuffer

  // Between calls; own index loaded; copying element i of n. single: insert, which puts in one
  // element and tests for a full buffer in its own way.
  datatype Producer<T> =
    | Idle
    | Loaded(tmpHead: nat, buff: seq<T>, single: bool)
    | Writing(tmpHead: nat, buff: seq<T>, n: nat, i: nat)

  // skip: remove(cnt), which moves the tail without reading.
  datatype Consumer<T> =
    | Resting
    | Started(tmpTail: nat, count: nat, skip: bool)
    | Reading(tmpTail: nat, n: nat, got: seq<T>)
    | Skipping(tmpTail: nat, n: nat)

  // head, tail, data: the shared memory. written, consumed: every element whose index store
  // has happened (None: skipped). seenTail, seenHead: how many elements the last load of the
  // other side's index accounts for.
  datatype State<T> = State(
    head: nat, tail: nat, data: seq<T>, producer: Producer<T>, consumer: Consumer<T>,
    written: seq<T>, consumed: seq<Option<T>>, seenTail: nat, seenHead: nat)

  datatype Step<T> =
    | StartWrite(buff: seq<T>)
    | StartInsert(x: T)
    | LoadTail(seen: nat)
    | WriteSlot
    | StoreHead
    | StartRead(count: nat, skip: bool)
    | LoadHead(seen: nat)
    | ReadSlot
    | StoreTail

  // The value of a free-running index after n increments.
  function Index(n: nat, modulus: nat): (r: nat)
    requires modulus > 0
    ensures r < modulus
  {
    if n == 0 then 0 else Wrap(Index(n - 1, modulus) + 1, modulus)
  }

  // How many elements the producer goes on to write, by the tail it has just loaded.
  function Planned<T>(tmpHead: nat, tail: nat, buff: seq<T>, single: bool, size: nat, width: nat): (n: nat)
    requires tmpHead < Pow2(width) && tail < Pow2(width) && 2 * size <= Pow2(width)
    requires single ==> |buff| == 1
    ensures n <= |buff|
  {
    if single then (if Difference(tmpHead, tail, width) == size then 0 else 1)
    else
      var available := Wrap(size - Wrap(tmpHead - tail, Pow2(width)), Pow2(width));
      if available < |buff| then available else |buff|
  }

  // insert goes on only where its test tells a full buffer from one with room.
  predicate TestWorks<T>(s: State<T>, seen: nat, width: nat) {
    s.producer.Loaded? && s.producer.single ==>
      |s.written| - seen != |s.data| || FullTestWorks(Index(seen, Pow2(width)), |s.data|, width)
  }

  predicate Enabled<T>(s: State<T>, step: Step<T>, width: nat) {
    match step
    case StartWrite(_) => s.producer.Idle?
    case StartInsert(_) => s.producer.Idle?
    case LoadTail(seen) => s.producer.Loaded? && s.seenTail <= seen <= |s.consumed| && TestWorks(s, seen, width)
    case WriteSlot => s.producer.Writing? && s.producer.i < s.producer.n
    case StoreHead => s.producer.Writing? && s.producer.i == s.producer.n
    case StartRead(_, _) => s.consumer.Resting?
    case LoadHead(seen) => s.consumer.Started? && s.seenHead <= seen <= |s.written|
    case ReadSlot => s.consumer.Reading? && |s.consumer.got| < s.consumer.n
    case StoreTail => s.consumer.Skipping? || (s.consumer.Reading? && |s.consumer.got| == s.consumer.n)
  }

  // ------------------------------------------------------------------------- the invariant

  // The slot of element k of the stream holds x.
  ghost predicate Holds<T>(data: seq<T>, k: nat, x: T)
    requires |data| > 0
  {
    data[Slot(k, |data|)] == x
  }

  ghost predicate Slots<T>(s: State<T>) {
    |s.data| > 0 &&
    forall k {:trigger Holds(s.data, k, s.written[k])} ::
      |s.consumed| <= k < |s.written| ==> Holds(s.data, k, s.written[k])
  }

  ghost predicate ReadAt<T>(s: State<T>, k: nat)
    requires k < |s.consumed| <= |s.written|
  {
    s.consumed[k] == None || s.consumed[k] == Some(s.written[k])
  }

  ghost predicate ReadsMatch<T>(s: State<T>) {
    |s.consumed| <= |s.written| && forall k :: 0 <= k < |s.consumed| ==> ReadAt(s, k)
  }

  // Element j of a write in progress is in its slot.
  ghost predicate PutAt<T>(data: seq<T>, written: nat, buff: seq<T>, j: nat)
    requires |data| > 0 && j < |buff|
  {
    Holds(data, written + j, buff[j])
  }

  // Element j of a read in progress is the one written.
  ghost predicate GotAt<T>(written: seq<T>, consumed: nat, got: seq<T>, j: nat)
    requires j < |got| && consumed + j < |written|
  {
    got[j] == written[consumed + j]
  }

  ghost predicate ProducerOk<T>(s: State<T>, modulus: nat)
    requires |s.data| > 0 && modulus > 0
  {
    match s.producer
    case Idle => true
    case Loaded(tmpHead, buff, single) => tmpHead == s.head && (single ==> |buff| == 1)
    case Writing(tmpHead, buff, n, i) =>
      && i <= n <= |buff| && |s.written| + n <= s.seenTail + |s.data|
      && tmpHead == Index(|s.written| + i, modulus)
      && forall j :: 0 <= j < i ==> PutAt(s.data, |s.written|, buff, j)
  }

  ghost predicate ConsumerOk<T>(s: State<T>, modulus: nat)
    requires modulus > 0
  {
    match s.consumer
    case Resting => true
    case Started(tmpTail, _, _) => tmpTail == s.tail
    case Reading(tmpTail, n, got) =>
      && |got| <= n && |s.consumed| + n <= s.seenHead <= |s.written|
      && tmpTail == Index(|s.consumed| + |got|, modulus)
      && forall j :: 0 <= j < |got| ==> GotAt(s.written, |s.consumed|, got, j)
    case Skipping(tmpTail, n) => tmpTail == s.tail && |s.consumed| + n <= s.seenHead
  }

  // The bounds between what both sides have done and what each has seen of the other.
  ghost predicate Counts<T>(s: State<T>) {
    s.seenTail <= |s.consumed| <= s.seenHead <= |s.written| <= s.seenTail + |s.data|
  }

  ghost predicate Inv<T>(s: State<T>, width: nat) {
    && SizeOk(|s.data|, width) && Counts(s)
    && s.head == Index(|s.written|, Pow2(width)) && s.tail == Index(|s.consumed|, Pow2(width))
    && Slots(s) && ReadsMatch(s)
    && ProducerOk(s, Pow2(width)) && ConsumerOk(s, Pow2(width))
  }

  // ----------------------------------------------------------------------------- the steps

  function Somes<T>(xs: seq<T>): (r: seq<Option<T>>)
    ensures |r| == |xs| && forall i {:trigger r[i]} :: 0 <= i < |r| ==> r[i] == Some(xs[i])
  {
    seq(|xs|, i requires 0 <= i < |xs| => Some(xs[i]))
  }

  function Nones<T>(n: nat): (r: seq<Option<T>>)
    ensures |r| == n && forall i {:trigger r[i]} :: 0 <= i < n ==> r[i] == None
  {
    seq(n, _ => None)
  }

  function Next<T>(s: State<T>, step: Step<T>, width: nat): State<T>
    requires Inv(s, width) && Enabled(s, step, width)
  {
    var modulus := Pow2(width);
    var size := |s.data|;
    HalfRange(size, width);
    match step
    case StartWrite(buff) => s.(producer := Loaded(s.head, buff, false))
    case StartInsert(x) => s.(producer := Loaded(s.head, [x], true))
    case LoadTail(seen) =>
      var p := s.producer;
      var n := Planned(p.tmpHead, Index(seen, modulus), p.buff, p.single, size, width);
      s.(seenTail := seen, producer := Writing(p.tmpHead, p.buff, n, 0))
    case WriteSlot =>
      var p := s.producer;
      s.(data := s.data[Slot(p.tmpHead, size) := p.buff[p.i]],
         producer := Writing(Wrap(p.tmpHead + 1, modulus), p.buff, p.n, p.i + 1))
    case StoreHead =>
      var p := s.producer;
      s.(head := p.tmpHead, written := s.written + p.buff[..p.n], producer := Idle)
    case StartRead(count, skip) => s.(consumer := Started(s.tail, count, skip))
    case LoadHead(seen) =>
      var c := s.consumer;
      var available := Wrap(Index(seen, modulus) - c.tmpTail, modulus);
      var n := if available < c.count then available else c.count;
      s.(seenHead := seen, consumer := if c.skip then Skipping(c.tmpTail, n) else Reading(c.tmpTail, n, []))
    case ReadSlot =>
      var c := s.consumer;
      s.(consumer := Reading(Wrap(c.tmpTail + 1, modulus), c.n, c.got + [s.data[Slot(c.tmpTail, size)]]))
    case StoreTail =>
      match s.consumer
      case Skipping(tmpTail, n) =>
        s.(tail := Wrap(tmpTail + n, modulus), consumed := s.consumed + Nones(n), consumer := Resting)
      case Reading(tmpTail, n, got) =>
        s.(tail := tmpTail, consumed := s.consumed + Somes(got), consumer := Resting)
  }

  // -------------------------------------------------------------------- wrapped arithmetic

  lemma {:induction false} IndexIsMod(n: nat, modulus: nat)
    requires modulus > 0
    ensures Index(n, modulus) == n % modulus
  {
    if n == 0 {
      ModUnique(0, modulus, 0, 0);
    } else {
      IndexIsMod(n - 1, modulus);
      var q, r := (n - 1) / modulus, (n - 1) % modulus;
      assert n - 1 == modulus * q + r;
      assert modulus * (q + 1) == modulus * q + modulus;
      ModUnique(n, modulus, if r + 1 < modulus then q else q + 1, Wrap(r + 1, modulus));
    }
  }

  // The slot of a wrapped index is the slot of the count it stands for.
  lemma IndexSlot(n: nat, size: nat, width: nat)
    requires SizeOk(size, width)
    ensures Slot(Index(n, Pow2(width)), size) == Slot(n, size)
  {
    IndexIsMod(n, Pow2(width));
    SlotIsMod(size, width, n);
    SlotIsMod(size, width, Index(n, Pow2(width)));
  }

  lemma {:induction false} IndexAdds(n: nat, k: nat, modulus: nat)
    requires k < modulus
    ensures Index(n + k, modulus) == Wrap(Index(n, modulus) + k, modulus)
    decreases k
  {
    if k > 0 {
      IndexAdds(n, k - 1, modulus);
    }
  }

  // Subtracting wrapped indices gives back the distance of the counts.
  lemma IndexDistance(a: nat, b: nat, modulus: nat)
    requires a <= b < a + modulus
    ensures Wrap(Index(b, modulus) - Index(a, modulus), modulus) == b - a
  {
    IndexAdds(a, b - a, modulus);
  }

  // ------------------------------------------------------------------- one step keeps it

  // insert's test goes wrong exactly when the buffer looks full and the index type is too
  // narrow for the test to see it; if the tail it loaded is the current one, the slot it then
  // writes holds the oldest unread element.
  lemma InsertTest<T>(s: State<T>, seen: nat, width: nat)
    requires Inv(s, width) && s.producer.Loaded? && s.producer.single && s.seenTail <= seen <= |s.consumed|
    ensures 2 * |s.data| <= Pow2(width)
    ensures var n := Planned(s.producer.tmpHead, Index(seen, Pow2(width)), s.producer.buff, true, |s.data|, width);
      && (n == Min(1, |s.data| - (|s.written| - seen)) <==> TestWorks(s, seen, width))
      && (!TestWorks(s, seen, width) && seen == |s.consumed| ==>
        |s.consumed| < |s.written| && Slot(s.producer.tmpHead, |s.data|) == Slot(|s.consumed|, |s.data|))
  {
    var size, modulus := |s.data|, Pow2(width);
    HalfRange(size, width);
    IndexAdds(seen, |s.written| - seen, modulus);
    FullTestExact(size, width, Index(seen, modulus), |s.written| - seen);
    IndexSlot(|s.written|, size, width);
    if |s.written| - seen == size {
      SlotRepeats(size, width, seen);
    }
  }

  // From any tail it may see, the producer plans exactly what that tail leaves free.
  lemma PlannedFits<T>(s: State<T>, seen: nat, width: nat)
    requires Inv(s, width) && Enabled(s, LoadTail(seen), width)
    ensures 2 * |s.data| <= Pow2(width)
    ensures Planned(s.producer.tmpHead, Index(seen, Pow2(width)), s.producer.buff, s.producer.single, |s.data|, width)
      == Min(|s.producer.buff|, |s.data| - (|s.written| - seen))
  {
    HalfRange(|s.data|, width);
    if s.producer.single {
      InsertTest(s, seen, width);
    } else {
      IndexDistance(seen, |s.written|, Pow2(width));
    }
  }

  lemma LoadTailKeepsInv<T>(s: State<T>, seen: nat, width: nat)
    requires Inv(s, width) && Enabled(s, LoadTail(seen), width)
    ensures Inv(Next(s, LoadTail(seen), width), width)
    ensures Next(s, LoadTail(seen), width).producer.n == Min(|s.producer.buff|, |s.data| - (|s.written| - seen))
  {
    PlannedFits(s, seen, width);
    var t := Next(s, LoadTail(seen), width);
    ReadsStay(s, t);
    SlotsStay(s, t);
    ConsumerStays(s, t, Pow2(width));
  }

  // What the consumer has done stays right when the producer moves on.
  lemma ReadsStay<T>(s: State<T>, t: State<T>)
    requires ReadsMatch(s) && s.written <= t.written && t.consumed == s.consumed
    ensures ReadsMatch(t)
  {
    forall k | 0 <= k < |t.consumed|
      ensures ReadAt(t, k)
    {
      assert ReadAt(s, k) && t.written[k] == s.written[k];
    }
  }

  lemma ConsumerStays<T>(s: State<T>, t: State<T>, modulus: nat)
    requires modulus > 0 && ConsumerOk(s, modulus) && |s.consumed| <= |s.written|
    requires s.written <= t.written && t.consumed == s.consumed && t.consumer == s.consumer && t.tail == s.tail
    requires t.seenHead == s.seenHead
    ensures ConsumerOk(t, modulus)
  {
    if s.consumer.Reading? {
      var got := s.consumer.got;
      forall j | 0 <= j < |got|
        ensures GotAt(t.written, |t.consumed|, got, j)
      {
        assert GotAt(s.written, |s.consumed|, got, j);
      }
    }
  }

  // Fewer unread elements are in their slots as before.
  lemma SlotsStay<T>(s: State<T>, t: State<T>)
    requires Slots(s) && t.data == s.data && t.written == s.written && |s.consumed| <= |t.consumed|
    ensures Slots(t)
  {
    forall k | |t.consumed| <= k < |t.written|
      ensures Holds(t.data, k, t.written[k])
    {
      assert Holds(s.data, k, s.written[k]);
    }
  }

  lemma ProducerStays<T>(s: State<T>, t: State<T>, modulus: nat)
    requires |s.data| > 0 && modulus > 0 && ProducerOk(s, modulus)
    requires t.data == s.data && t.written == s.written && t.producer == s.producer && t.head == s.head
    requires t.seenTail == s.seenTail
    ensures ProducerOk(t, modulus)
  {
  }

  lemma LoadHeadKeepsInv<T>(s: State<T>, seen: nat, width: nat)
    requires Inv(s, width) && Enabled(s, LoadHead(seen), width)
    ensures Inv(Next(s, LoadHead(seen), width), width)
    ensures Next(s, LoadHead(seen), width).consumer.n == Min(s.consumer.count, seen - |s.consumed|)
  {
    HalfRange(|s.data|, width);
    IndexDistance(|s.consumed|, seen, Pow2(width));
    var t := Next(s, LoadHead(seen), width);
    ReadsStay(s, t);
    SlotsStay(s, t);
    ProducerStays(s, t, Pow2(width));
  }

  // The slot about to be written holds no unread element and is not the slot being read.
  lemma WriteIsPrivate<T>(s: State<T>, width: nat)
    requires Inv(s, width) && Enabled(s, WriteSlot, width)
    ensures var at := Slot(s.producer.tmpHead, |s.data|);
      && at == Slot(|s.written| + s.producer.i, |s.data|)
      && (forall k :: |s.consumed| <= k < |s.written| + s.producer.i ==> Slot(k, |s.data|) != at)
      && (Enabled(s, ReadSlot, width) ==> Slot(s.consumer.tmpTail, |s.data|) != at)
  {
    var at := |s.written| + s.producer.i;
    IndexSlot(at, |s.data|, width);
    forall k | |s.consumed| <= k < at
      ensures Slot(k, |s.data|) != Slot(at, |s.data|)
    {
      SlotsDiffer(|s.data|, width, k, at);
    }
    if Enabled(s, ReadSlot, width) {
      IndexSlot(|s.consumed| + |s.consumer.got|, |s.data|, width);
    }
  }

  // What was in the other slots stays.
  lemma WriteKeepsSlots<T>(s: State<T>, width: nat)
    requires Inv(s, width) && Enabled(s, WriteSlot, width)
    ensures Slots(Next(s, WriteSlot, width))
    ensures var t := Next(s, WriteSlot, width);
      forall j :: 0 <= j < t.producer.i ==> PutAt(t.data, |t.written|, t.producer.buff, j)
  {
    WriteIsPrivate(s, width);
    var t := Next(s, WriteSlot, width);
    var at := Slot(s.producer.tmpHead, |s.data|);
    forall k | |t.consumed| <= k < |t.written|
      ensures Holds(t.data, k, t.written[k])
    {
      assert Holds(s.data, k, s.written[k]) && Slot(k, |s.data|) != at;
    }
    forall j | 0 <= j < t.producer.i
      ensures PutAt(t.data, |t.written|, t.producer.buff, j)
    {
      if j < s.producer.i {
        assert PutAt(s.data, |s.written|, s.producer.buff, j) && Slot(|s.written| + j, |s.data|) != at;
      }
    }
  }

  lemma WriteSlotKeepsInv<T>(s: State<T>, width: nat)
    requires Inv(s, width) && Enabled(s, WriteSlot, width)
    ensures Inv(Next(s, WriteSlot, width), width)
  {
    WriteKeepsSlots(s, width);
    var t := Next(s, WriteSlot, width);
    ReadsStay(s, t);
    ConsumerStays(s, t, Pow2(width));
  }

  lemma StoreHeadKeepsInv<T>(s: State<T>, width: nat)
    requires Inv(s, width) && Enabled(s, StoreHead, width)
    ensures Inv(Next(s, StoreHead, width), width)
  {
    var t := Next(s, StoreHead, width);
    forall k | |t.consumed| <= k < |t.written|
      ensures Holds(t.data, k, t.written[k])
    {
      if k >= |s.written| {
        assert PutAt(s.data, |s.written|, s.producer.buff, k - |s.written|);
      } else {
        assert Holds(s.data, k, s.written[k]);
      }
    }
    ReadsStay(s, t);
    ConsumerStays(s, t, Pow2(width));
  }

  lemma ReadSlotKeepsInv<T>(s: State<T>, width: nat)
    requires Inv(s, width) && Enabled(s, ReadSlot, width)
    ensures Inv(Next(s, ReadSlot, width), width)
  {
    var got, k := s.consumer.got, |s.consumed| + |s.consumer.got|;
    var t := Next(s, ReadSlot, width);
    IndexSlot(k, |s.data|, width);
    assert Holds(s.data, k, s.written[k]);
    forall j | 0 <= j < |got| + 1
      ensures GotAt(t.written, |t.consumed|, t.consumer.got, j)
    {
      assert j < |got| ==> GotAt(s.written, |s.consumed|, got, j);
    }
    ReadsStay(s, t);
    SlotsStay(s, t);
    ProducerStays(s, t, Pow2(width));
  }

  // The elements consumed so far and n more, read or skipped.
  lemma ReadsGrow<T>(s: State<T>, t: State<T>, more: seq<Option<T>>)
    requires ReadsMatch(s) && t.written == s.written && t.consumed == s.consumed + more
    requires |t.consumed| <= |t.written|
    requires forall j {:trigger more[j]} ::
      0 <= j < |more| ==> more[j] == None || more[j] == Some(s.written[|s.consumed| + j])
    ensures ReadsMatch(t)
  {
    forall k | 0 <= k < |t.consumed|
      ensures ReadAt(t, k)
    {
      if k < |s.consumed| {
        assert ReadAt(s, k);
      } else {
        assert t.consumed[k] == more[k - |s.consumed|];
      }
    }
  }

  lemma SomesMatch<T>(s: State<T>, width: nat)
    requires Inv(s, width) && s.consumer.Reading?
    ensures var more := Somes(s.consumer.got);
      forall j {:trigger more[j]} :: 0 <= j < |more| ==> more[j] == Some(s.written[|s.consumed| + j])
  {
    var more := Somes(s.consumer.got);
    forall j | 0 <= j < |more|
      ensures more[j] == Some(s.written[|s.consumed| + j])
    {
      assert GotAt(s.written, |s.consumed|, s.consumer.got, j);
    }
  }

  lemma StoreTailKeepsInv<T>(s: State<T>, width: nat)
    requires Inv(s, width) && Enabled(s, StoreTail, width)
    ensures Inv(Next(s, StoreTail, width), width)
  {
    var t := Next(s, StoreTail, width);
    HalfRange(|s.data|, width);
    if s.consumer.Skipping? {
      IndexAdds(|s.consumed|, s.consumer.n, Pow2(width));
      ReadsGrow(s, t, Nones(s.consumer.n));
    } else {
      SomesMatch(s, width);
      ReadsGrow(s, t, Somes(s.consumer.got));
    }
    SlotsStay(s, t);
    ProducerStays(s, t, Pow2(width));
  }

  lemma StartKeepsInv<T>(s: State<T>, step: Step<T>, width: nat)
    requires Inv(s, width) && Enabled(s, step, width)
    requires step.StartWrite? || step.StartInsert? || step.StartRead?
    ensures Inv(Next(s, step, width), width)
  {
    var t := Next(s, step, width);
    ReadsStay(s, t);
    SlotsStay(s, t);
  }

  lemma StepKeepsInv<T>(s: State<T>, step: Step<T>, width: nat)
    requires Inv(s, width) && Enabled(s, step, width)
    ensures Inv(Next(s, step, width), width)
  {
    match step
    case StartWrite(_) => StartKeepsInv(s, step, width);
    case StartInsert(_) => StartKeepsInv(s, step, width);
    case LoadTail(seen) => LoadTailKeepsInv(s, seen, width);
    case WriteSlot => WriteSlotKeepsInv(s, width);
    case StoreHead => StoreHeadKeepsInv(s, width);
    case StartRead(_, _) => StartKeepsInv(s, step, width);
    case LoadHead(seen) => LoadHeadKeepsInv(s, seen, width);
    case ReadSlot => ReadSlotKeepsInv(s, width);
    case StoreTail => StoreTailKeepsInv(s, width);
  }

  // -------------------------------------------------------------------------- all the runs

  ghost predicate CanRun<T>(s: State<T>, steps: seq<Step<T>>, width: nat)
    requires Inv(s, width)
    decreases |steps|
  {
    steps != [] ==>
      && Enabled(s, steps[0], width)
      && (StepKeepsInv(s, steps[0], width); CanRun(Next(s, steps[0], width), steps[1..], width))
  }

  ghost function After<T>(s: State<T>, steps: seq<Step<T>>, width: nat): (t: State<T>)
    requires Inv(s, width) && CanRun(s, steps, width)
    ensures Inv(t, width)
    decreases |steps|
  {
    if steps == [] then s
    else (StepKeepsInv(s, steps[0], width); After(Next(s, steps[0], width), steps[1..], width))
  }

  function Init<T>(data: seq<T>): State<T> {
    State(0, 0, data, Idle, Resting, [], [], 0, 0)
  }

  lemma InitInv<T>(data: seq<T>, width: nat)
    requires SizeOk(|data|, width)
    ensures Inv(Init(data), width)
  {
  }

  // Whatever the interleaving: the elements read are a prefix of those written, in order and
  // unchanged; every unread element is still in its slot; and the difference of the wrapped
  // indices is the exact number of unread elements, never more than the size.
  lemma RunIsSafe<T>(data: seq<T>, steps: seq<Step<T>>, width: nat)
    requires SizeOk(|data|, width)
    requires Inv(Init(data), width) ==> CanRun(Init(data), steps, width)
    ensures Inv(Init(data), width)
    ensures var t := After(Init(data), steps, width);
      && |t.consumed| <= |t.written| <= |t.consumed| + |data| && |t.data| == |data|
      && (forall k :: 0 <= k < |t.consumed| && t.consumed[k].Some? ==> t.consumed[k].value == t.written[k])
      && (forall k :: |t.consumed| <= k < |t.written| ==> t.data[Slot(k, |t.data|)] == t.written[k])
      && t.head < Pow2(width) && t.tail < Pow2(width)
      && Wrap(t.head - t.tail, Pow2(width)) == |t.written| - |t.consumed|
  {
    InitInv(data, width);
    HalfRange(|data|, width);
    SizeStays(Init(data), steps, width);
    var t := After(Init(data), steps, width);
    IndexDistance(|t.consumed|, |t.written|, Pow2(width));
    forall k | 0 <= k < |t.consumed| && t.consumed[k].Some?
      ensures t.consumed[k].value == t.written[k]
    {
      assert ReadAt(t, k);
    }
    forall k | |t.consumed| <= k < |t.written|
      ensures t.data[Slot(k, |t.data|)] == t.written[k]
    {
      assert Holds(t.data, k, t.written[k]);
    }
  }

  // A run only appends to what was written and to what was consumed.
  lemma {:induction false} SizeStays<T>(s: State<T>, steps: seq<Step<T>>, width: nat)
    requires Inv(s, width) && CanRun(s, steps, width)
    ensures var t := After(s, steps, width);
      |t.data| == |s.data| && s.written <= t.written && s.consumed <= t.consumed
    decreases |steps|
  {
    if steps != [] {
      StepKeepsInv(s, steps[0], width);
      SizeStays(Next(s, steps[0], width), steps[1..], width);
    }
  }

  // --------------------------------------------------- one side alone is the sequential buffer

  ghost function Unread<T>(s: State<T>): seq<T>
    requires |s.consumed| <= |s.written|
  {
    s.written[|s.consumed|..]
  }

  function Repeat<T>(step: Step<T>, n: nat): seq<Step<T>> {
    seq(n, _ => step)
  }

  lemma {:induction false} RunAppend<T>(s: State<T>, a: seq<Step<T>>, b: seq<Step<T>>, width: nat)
    requires Inv(s, width) && CanRun(s, a, width) && CanRun(After(s, a, width), b, width)
    ensures CanRun(s, a + b, width) && After(s, a + b, width) == After(After(s, a, width), b, width)
    decreases |a|
  {
    if a == [] {
      assert a + b == b;
    } else {
      assert (a + b)[1..] == a[1..] + b;
      StepKeepsInv(s, a[0], width);
      RunAppend(Next(s, a[0], width), a[1..], b, width);
    }
  }

  // The rest of the copy loop of writeBuff.
  lemma {:induction false} WriteSlots<T>(s: State<T>, width: nat)
    requires Inv(s, width) && s.producer.Writing?
    ensures var steps := Repeat<T>(WriteSlot, s.producer.n - s.producer.i);
      && CanRun(s, steps, width)
      && var t := After(s, steps, width);
         t == s.(data := t.data, producer := t.producer)
         && t.producer.Writing? && t.producer.i == t.producer.n == s.producer.n && t.producer.buff == s.producer.buff
    decreases s.producer.n - s.producer.i
  {
    var steps := Repeat<T>(WriteSlot, s.producer.n - s.producer.i);
    if steps != [] {
      StepKeepsInv(s, WriteSlot, width);
      WriteSlots(Next(s, WriteSlot, width), width);
      assert steps[1..] == Repeat<T>(WriteSlot, s.producer.n - s.producer.i - 1);
    }
  }

  // The rest of the copy loop of readBuff.
  lemma {:induction false} ReadSlots<T>(s: State<T>, width: nat)
    requires Inv(s, width) && s.consumer.Reading?
    ensures var steps := Repeat<T>(ReadSlot, s.consumer.n - |s.consumer.got|);
      && CanRun(s, steps, width)
      && var t := After(s, steps, width);
         t == s.(consumer := t.consumer) && t.consumer.Reading? && |t.consumer.got| == t.consumer.n == s.consumer.n
    decreases s.consumer.n - |s.consumer.got|
  {
    var steps := Repeat<T>(ReadSlot, s.consumer.n - |s.consumer.got|);
    if steps != [] {
      StepKeepsInv(s, ReadSlot, width);
      ReadSlots(Next(s, ReadSlot, width), width);
      assert steps[1..] == Repeat<T>(ReadSlot, s.consumer.n - |s.consumer.got| - 1);
    }
  }

  lemma Prepend<T>(s: State<T>, step: Step<T>, rest: seq<Step<T>>, width: nat)
    requires Inv(s, width) && Enabled(s, step, width)
    requires Inv(Next(s, step, width), width) && CanRun(Next(s, step, width), rest, width)
    ensures CanRun(s, [step] + rest, width)
    ensures After(s, [step] + rest, width) == After(Next(s, step, width), rest, width)
  {
    assert ([step] + rest)[1..] == rest;
  }

  // A step after a run.
  lemma Postpone<T>(s: State<T>, steps: seq<Step<T>>, step: Step<T>, width: nat)
    requires Inv(s, width) && CanRun(s, steps, width) && Enabled(After(s, steps, width), step, width)
    ensures CanRun(s, steps + [step], width)
    ensures After(s, steps + [step], width) == Next(After(s, steps, width), step, width)
  {
    var t := After(s, steps, width);
    StepKeepsInv(t, step, width);
    Prepend(t, step, [], width);
    assert [step] + [] == [step];
    RunAppend(s, steps, [step], width);
  }

  // The copy loop and the store of the head.
  lemma FinishWrite<T>(s: State<T>, width: nat) returns (steps: seq<Step<T>>)
    requires Inv(s, width) && s.producer.Writing?
    ensures CanRun(s, steps, width)
    ensures var t := After(s, steps, width);
      && t.producer.Idle? && t.consumer == s.consumer && t.consumed == s.consumed
      && t.written == s.written + s.producer.buff[..s.producer.n]
  {
    WriteSlots(s, width);
    steps := Repeat<T>(WriteSlot, s.producer.n - s.producer.i);
    Postpone(s, steps, StoreHead, width);
    steps := steps + [StoreHead];
  }

  lemma TwoSteps<T>(s: State<T>, a: Step<T>, b: Step<T>, width: nat)
    requires Inv(s, width) && Enabled(s, a, width)
    requires Inv(Next(s, a, width), width) && Enabled(Next(s, a, width), b, width)
    requires Inv(Next(Next(s, a, width), b, width), width)
    ensures CanRun(s, [a, b], width) && After(s, [a, b], width) == Next(Next(s, a, width), b, width)
  {
    var s1 := Next(s, a, width);
    Prepend(s1, b, [], width);
    assert [b] + [] == [b];
    Prepend(s, a, [b], width);
    assert [a] + [b] == [a, b];
  }

  // Up to the copy loop: own index and the other side's current one are loaded.
  lemma BeginWrite<T>(s: State<T>, start: Step<T>, buff: seq<T>, width: nat) returns (steps: seq<Step<T>>)
    requires Inv(s, width) && s.producer.Idle?
    requires start == StartWrite(buff) || (|buff| == 1 && start == StartInsert(buff[0]))
    requires start.StartInsert? ==>
      |s.written| - |s.consumed| != |s.data| || FullTestWorks(s.tail, |s.data|, width)
    ensures CanRun(s, steps, width)
    ensures var t := After(s, steps, width);
      t.producer == Writing(s.head, buff, Min(|buff|, |s.data| - |Unread(s)|), 0)
      && t.consumer == s.consumer && t.consumed == s.consumed && t.written == s.written
  {
    assert start.StartInsert? ==> [buff[0]] == buff;
    StepKeepsInv(s, start, width);
    var s1 := Next(s, start, width);
    var load: Step<T> := LoadTail(|s.consumed|);
    LoadTailKeepsInv(s1, |s.consumed|, width);
    TwoSteps(s, start, load, width);
    steps := [start, load];
  }

  // writeBuff with the other side at rest appends as much as fits, as Ringbuffer.WriteBuff;
  // insert does where its test works, as Ringbuffer.Insert.
  lemma WriteAlone<T>(s: State<T>, start: Step<T>, buff: seq<T>, width: nat) returns (steps: seq<Step<T>>)
    requires Inv(s, width) && s.producer.Idle?
    requires start == StartWrite(buff) || (|buff| == 1 && start == StartInsert(buff[0]))
    requires start.StartInsert? ==>
      |s.written| - |s.consumed| != |s.data| || FullTestWorks(s.tail, |s.data|, width)
    ensures CanRun(s, steps, width)
    ensures var t, n := After(s, steps, width), Min(|buff|, |s.data| - |Unread(s)|);
      && t.producer.Idle? && t.consumer == s.consumer && t.consumed == s.consumed
      && Unread(t) == Unread(s) + buff[..n]
  {
    var begin := BeginWrite(s, start, buff, width);
    var rest := FinishWrite(After(s, begin, width), width);
    RunAppend(s, begin, rest, width);
    steps := begin + rest;
  }

  // The copy loop and the store of the tail.
  lemma FinishRead<T>(s: State<T>, width: nat) returns (steps: seq<Step<T>>)
    requires Inv(s, width) && s.consumer.Reading?
    ensures CanRun(s, steps, width)
    ensures var t := After(s, steps, width);
      && t.consumer.Resting? && t.producer == s.producer && t.written == s.written
      && t.consumed == s.consumed + Somes(s.written[|s.consumed|..|s.consumed| + s.consumer.n])
  {
    ReadSlots(s, width);
    steps := Repeat<T>(ReadSlot, s.consumer.n - |s.consumer.got|);
    var t := After(s, steps, width);
    var got := t.consumer.got;
    forall j | 0 <= j < |got|
      ensures got[j] == s.written[|s.consumed| + j]
    {
      assert GotAt(t.written, |t.consumed|, got, j);
    }
    assert got == s.written[|s.consumed|..|s.consumed| + s.consumer.n];
    Postpone(s, steps, StoreTail, width);
    steps := steps + [StoreTail];
  }

  lemma BeginRead<T>(s: State<T>, count: nat, width: nat) returns (steps: seq<Step<T>>)
    requires Inv(s, width) && s.consumer.Resting?
    ensures CanRun(s, steps, width)
    ensures var t := After(s, steps, width);
      && t.consumer == Reading(s.tail, Min(count, |Unread(s)|), []) && t.producer == s.producer
      && t.consumed == s.consumed && t.written == s.written
  {
    var start: Step<T> := StartRead(count, false);
    var load: Step<T> := LoadHead(|s.written|);
    StepKeepsInv(s, start, width);
    LoadHeadKeepsInv(Next(s, start, width), |s.written|, width);
    TwoSteps(s, start, load, width);
    steps := [start, load];
  }

  // readBuff with the other side at rest takes the oldest elements, as Ringbuffer.ReadBuff.
  lemma ReadAlone<T>(s: State<T>, count: nat, width: nat) returns (steps: seq<Step<T>>)
    requires Inv(s, width) && s.consumer.Resting?
    ensures CanRun(s, steps, width)
    ensures var t, n := After(s, steps, width), Min(count, |Unread(s)|);
      && t.consumer.Resting? && t.producer == s.producer
      && t.consumed == s.consumed + Somes(Unread(s)[..n]) && Unread(t) == Unread(s)[n..]
  {
    var begin := BeginRead(s, count, width);
    var n := Min(count, |Unread(s)|);
    var rest := FinishRead(After(s, begin, width), width);
    assert s.written[|s.consumed|..|s.consumed| + n] == Unread(s)[..n];
    RunAppend(s, begin, rest, width);
    steps := begin + rest;
  }

  // ------------------------------------------------------------ an index type that is too narrow

  ghost predicate AtRest<T>(s: State<T>) {
    s.producer.Idle? && s.consumer.Resting? && |s.consumed| <= |s.written|
  }

  // n elements are written and then k read, one side at a time.
  lemma WriteThenRead<T>(s: State<T>, buff: seq<T>, k: nat, width: nat) returns (steps: seq<Step<T>>)
    requires Inv(s, width) && AtRest(s) && |Unread(s)| + |buff| <= |s.data| && k <= |Unread(s)| + |buff|
    ensures CanRun(s, steps, width)
    ensures var t := After(s, steps, width);
      && AtRest(t) && |t.data| == |s.data|
      && |t.written| == |s.written| + |buff| && |t.consumed| == |s.consumed| + k
  {
    var write := WriteAlone(s, StartWrite(buff), buff, width);
    var t := After(s, write, width);
    SizeStays(s, write, width);
    var read := ReadAlone(t, k, width);
    SizeStays(t, read, width);
    RunAppend(s, write, read, width);
    steps := write + read;
  }

  lemma FillNarrow<T>(data: seq<T>, buff: seq<T>) returns (steps: seq<Step<T>>)
    requires |data| == |buff| == 128 && Inv(Init(data), 8)
    ensures CanRun(Init(data), steps, 8)
    ensures var t := After(Init(data), steps, 8);
      AtRest(t) && |t.written| == 328 && |t.consumed| == 200 && |t.data| == 128
  {
    var s0 := Init(data);
    var a := WriteThenRead(s0, buff, 128, 8);
    var s1 := After(s0, a, 8);
    var b := WriteThenRead(s1, buff, 72, 8);
    var s2 := After(s1, b, 8);
    var c := WriteThenRead(s2, buff[..72], 0, 8);
    RunAppend(s1, b, c, 8);
    RunAppend(s0, a, b + c, 8);
    steps := a + (b + c);
  }

  ghost predicate Overwrites<T>(t: State<T>, x: T, width: nat) {
    && Inv(t, width) && Enabled(t, StartInsert(x), width)
    && !TestWorks(Next(t, StartInsert(x), width), |t.consumed|, width)
    && |t.consumed| < |t.written| && Slot(t.head, |t.data|) == Slot(|t.consumed|, |t.data|)
  }

  lemma NarrowState<T>(t: State<T>, x: T)
    requires Inv(t, 8) && AtRest(t) && |t.written| == 328 && |t.consumed| == 200 && |t.data| == 128
    ensures t.head == 72 && t.tail == 200 && Overwrites(t, x, 8)
  {
    assert Pow2(8) == 256;
    IndexIsMod(328, 256);
    IndexIsMod(200, 256);
    StepKeepsInv(t, StartInsert(x), 8);
    InsertTest(Next(t, StartInsert(x), 8), 200, 8);
  }

  // With 128 slots and an 8-bit index type a run reaches a full buffer that insert's test does
  // not see: the difference of the indices is -128 instead of 128, and the slot insert would
  // write holds the oldest unread element.
  lemma NarrowInsertOverwrites<T>(data: seq<T>, buff: seq<T>, x: T) returns (steps: seq<Step<T>>)
    requires |data| == |buff| == 128
    ensures Inv(Init(data), 8) && CanRun(Init(data), steps, 8)
    ensures var t := After(Init(data), steps, 8);
      |t.written| - |t.consumed| == 128 && t.head == 72 && t.tail == 200 && Overwrites(t, x, 8)
    ensures 200 < Pow2(8) && Difference(72, 200, 8) == -128
  {
    FullTestFails();
    InitInv(data, 8);
    steps := FillNarrow(data, buff);
    NarrowState(After(Init(data), steps, 8), x);
  }
}
