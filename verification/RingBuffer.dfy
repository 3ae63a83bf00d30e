/**
 The single-producer single-consumer ring buffer as one thread sees it: free-running indices
 that wrap at the width of the index type, slots selected by masking, no wasted slot.
 */
module RingBuffer {
  import opened Arithmetic
  import opened Wrappers

  // --------------------------------------------------------------- masks and wrap-around

  function Pow2(k: nat): (p: nat)
    ensures p > 0
  {
    if k == 0 then 1 else 2 * Pow2(k - 1)
  }

  // Bitwise and.
  function And(x: nat, y: nat): (r: nat)
    ensures r <= y
  {
    if x == 0 || y == 0 then 0 else (if x % 2 == y % 2 == 1 then 1 else 0) + 2 * And(x / 2, y / 2)
  }

  lemma {:induction false} AndSelf(x: nat)
    ensures And(x, x) == x
  {
    if x > 0 {
      AndSelf(x / 2);
    }
  }

  lemma HalfMod(x: nat, p: nat)
    requires p > 0
    ensures x % (2 * p) == 2 * ((x / 2) % p) + x % 2
  {
    var h := x / 2;
    var q, r := h / p, h % p;
    assert h == p * q + r;
    assert 2 * (p * q) == 2 * p * q;
    ModUnique(x, 2 * p, q, 2 * r + x % 2);
  }

  // Masking with 2^k - 1 is the remainder modulo 2^k.
  lemma {:induction false} MaskIsMod(x: nat, k: nat)
    ensures And(x, Pow2(k) - 1) == x % Pow2(k)
    decreases k
  {
    if k > 0 {
      var p := Pow2(k - 1);
      MaskIsMod(x / 2, k - 1);
      HalfMod(x, p);
      assert (2 * p - 1) / 2 == p - 1;
    }
  }

  ghost predicate IsPow2(n: nat) {
    exists k: nat :: n == Pow2(k)
  }

  lemma DoublePow(h: nat)
    requires h > 0
    ensures IsPow2(2 * h) <==> IsPow2(h)
  {
    if IsPow2(h) {
      var k: nat :| h == Pow2(k);
      assert 2 * h == Pow2(k + 1);
    }
    if IsPow2(2 * h) {
      var k: nat :| 2 * h == Pow2(k);
      assert h == Pow2(k - 1);
    }
  }

  // The static assertion on the buffer size accepts exactly the powers of two.
  lemma {:induction false} PowerOfTwoTest(n: nat)
    requires n > 0
    ensures And(n, n - 1) == 0 <==> IsPow2(n)
  {
    if n == 1 {
      assert n == Pow2(0);
    } else if n % 2 == 1 {
      assert (n - 1) / 2 == n / 2;
      AndSelf(n / 2);
      forall k: nat
        ensures n != Pow2(k)
      {
        assert k == 0 || Pow2(k) == 2 * Pow2(k - 1);
      }
    } else {
      var h := n / 2;
      PowerOfTwoTest(h);
      DoublePow(h);
      assert (n - 1) / 2 == h - 1 && (n - 1) % 2 == 1;
      assert And(n, n - 1) == 2 * And(h, h - 1);
    }
  }

  // The static assertions on the buffer size and the index type.
  ghost predicate SizeOk(size: nat, width: nat) {
    width > 0 && size != 0 && And(size, size - 1) == 0 && size - 1 <= (Pow2(width) - 1) / 2
  }

  lemma {:induction false} PowDivides(k: nat, w: nat)
    requires k <= w
    ensures Pow2(w) == Pow2(k) * Pow2(w - k)
    decreases w
  {
    if k < w {
      PowDivides(k, w - 1);
      assert 2 * (Pow2(k) * Pow2(w - 1 - k)) == Pow2(k) * (2 * Pow2(w - 1 - k));
    }
  }

  lemma {:induction false} PowGrows(k: nat, w: nat)
    requires k < w
    ensures Pow2(k) < Pow2(w)
    decreases w
  {
    if k < w - 1 {
      PowGrows(k, w - 1);
    }
  }

  // The slot of index x: x & buffer_mask.
  function Slot(x: nat, size: nat): (r: nat)
    requires size > 0
    ensures r < size
  {
    And(x, size - 1)
  }

  // An index computation that leaves the index type's range at most once.
  function Wrap(x: int, modulus: nat): (r: nat)
    requires 0 <= x + modulus && x < 2 * modulus
    ensures r < modulus
  {
    if x < 0 then x + modulus else if x < modulus then x else x - modulus
  }

  // The size is a power of two at most half the index range.
  lemma SizeIsPower(size: nat, width: nat) returns (k: nat)
    requires SizeOk(size, width)
    ensures size == Pow2(k) && k <= width && 2 * size <= Pow2(width)
  {
    PowerOfTwoTest(size);
    k :| size == Pow2(k);
    assert Pow2(width) == 2 * Pow2(width - 1);
    if width < k {
      PowGrows(width, k);
    }
  }

  lemma SlotIsMod(size: nat, width: nat, x: nat)
    requires SizeOk(size, width)
    ensures Slot(x, size) == x % size && x % Pow2(width) % size == x % size
  {
    var k := SizeIsPower(size, width);
    MaskIsMod(x, k);
    PowDivides(k, width);
    ModOfMod(x, Pow2(width - k), size);
  }

  lemma HalfRange(size: nat, width: nat)
    requires SizeOk(size, width)
    ensures 2 * size <= Pow2(width)
  {
    var k := SizeIsPower(size, width);
  }

  // A wrapped index selects the slot of the unwrapped one.
  lemma WrapKeepsSlot(size: nat, width: nat, x: nat)
    requires SizeOk(size, width) && x < 2 * Pow2(width)
    ensures Slot(Wrap(x, Pow2(width)), size) == Slot(x, size)
  {
    var m := Pow2(width);
    SlotIsMod(size, width, x);
    SlotIsMod(size, width, Wrap(x, m));
    ModUnique(x, m, if x < m then 0 else 1, Wrap(x, m));
  }

  // Fewer than size apart, different slots.
  lemma SlotsDiffer(size: nat, width: nat, a: nat, b: nat)
    requires SizeOk(size, width) && a < b < a + size
    ensures Slot(a, size) != Slot(b, size)
  {
    SlotIsMod(size, width, a);
    SlotIsMod(size, width, b);
    ModsDiffer(a, b, size);
  }

  lemma SlotRepeats(size: nat, width: nat, k: nat)
    requires SizeOk(size, width)
    ensures Slot(k + size, size) == Slot(k, size)
  {
    SlotIsMod(size, width, k);
    SlotIsMod(size, width, k + size);
    ModRepeats(k, size);
  }

  // ------------------------------------------------------------------- the slots as a window

  // The slots from index t on hold s.
  ghost predicate Window<T>(d: seq<T>, t: nat, s: seq<T>) {
    |s| <= |d| && forall i :: 0 <= i < |s| ==> InSlot(d, t, s, i)
  }

  ghost predicate InSlot<T>(d: seq<T>, t: nat, s: seq<T>, i: nat)
    requires i < |s| && |d| > 0
  {
    d[Slot(t + i, |d|)] == s[i]
  }

  lemma WindowOfPrefix<T>(d: seq<T>, t: nat, s: seq<T>, s': seq<T>)
    requires Window(d, t, s) && s' <= s
    ensures Window(d, t, s')
  {
    forall i | 0 <= i < |s'|
      ensures InSlot(d, t, s', i)
    {
      assert InSlot(d, t, s, i);
    }
  }

  lemma WindowGrows<T>(d: seq<T>, width: nat, t: nat, s: seq<T>, x: T)
    requires SizeOk(|d|, width) && Window(d, t, s) && |s| < |d|
    ensures Window(d[Slot(t + |s|, |d|) := x], t, s + [x])
  {
    var s', d' := s + [x], d[Slot(t + |s|, |d|) := x];
    forall i | 0 <= i < |s'|
      ensures InSlot(d', t, s', i)
    {
      if i < |s| {
        SlotsDiffer(|d|, width, t + i, t + |s|);
        assert InSlot(d, t, s, i);
      }
    }
  }

  lemma WindowShrinks<T>(d: seq<T>, width: nat, t: nat, s: seq<T>, n: nat)
    requires SizeOk(|d|, width) && t < Pow2(width) && Window(d, t, s) && n <= |s|
    ensures |d| <= Pow2(width) && Window(d, Wrap(t + n, Pow2(width)), s[n..])
  {
    HalfRange(|d|, width);
    var m := Pow2(width);
    var s', t' := s[n..], Wrap(t + n, m);
    forall i | 0 <= i < |s'|
      ensures InSlot(d, t', s', i)
    {
      WrapKeepsSlot(|d|, width, t + n + i);
      if t' + i < m {
        assert Wrap(t + n + i, m) == t' + i;
      } else {
        WrapKeepsSlot(|d|, width, t' + i);
        assert t' == t + n;
      }
      assert InSlot(d, t, s, n + i);
    }
  }

  // ---------------------------------------------------------------------------- the buffer

  // The first k elements of c move in front of it.
  lemma PourThrough<T>(front: seq<T>, c: seq<T>, k: nat, x: seq<T>, y: seq<T>)
    requires k <= |c| && front + c == x + y
    ensures (front + c[..k]) + c[k..] == x + y
  {
    assert c == c[..k] + c[k..];
  }

  // Elements added at the end of both sides.
  lemma PourInto<T>(front: seq<T>, c: seq<T>, x: seq<T>, y: seq<T>, more: seq<T>)
    requires front + c == x + y
    ensures front + (c + more) == x + (y + more)
  {
    assert front + (c + more) == (front + c) + more;
  }

  lemma EndsAgree<T>(s: seq<T>, t: seq<T>, a: nat, b: nat)
    requires a <= b <= |s| == |t| && s[a..] == t[a..]
    ensures s[b..] == t[b..]
  {
    assert s[b..] == s[a..][b - a..] && t[b..] == t[a..][b - a..];
  }

  // head - tail as insert computes it: operands narrower than int are promoted, and the
  // difference does not wrap.
  function Difference(head: nat, tail: nat, width: nat): int
    requires head < Pow2(width) && tail < Pow2(width)
  {
    if width < 32 then head - tail else Wrap(head - tail, Pow2(width))
  }

  // The buffer will be seen to be full when it is.
  predicate FullTestWorks(tail: nat, size: nat, width: nat) {
    width >= 32 || tail + size < Pow2(width)
  }

  lemma FullTestExact(size: nat, width: nat, tail: nat, n: nat)
    requires SizeOk(size, width) && tail < Pow2(width) && n <= size <= Pow2(width)
    ensures Difference(Wrap(tail + n, Pow2(width)), tail, width) == size
      <==> n == size && FullTestWorks(tail, size, width)
  {
    HalfRange(size, width);
  }

  // 128 slots, an 8-bit index type, 128 unread elements: head and tail are 72 and 200.
  lemma FullTestFails()
    ensures SizeOk(128, 8) && Wrap(200 + 128, Pow2(8)) == 72 && 200 < Pow2(8)
    ensures Difference(72, 200, 8) == -128
  {
    assert 128 == Pow2(7);
    PowerOfTwoTest(128);
  }

  // How many of `count` elements are moved before the callback runs for the first time, with
  // `available` to be had.
  function FirstChunk(count: nat, countToCallback: nat, available: nat): nat {
    Min(if countToCallback != 0 && countToCallback < count then countToCallback else count, available)
  }

  // Nothing happens in the callbacks after the first.
  ghost predicate OnlyFirst(drains: seq<nat>) {
    drains != [] && forall i :: 1 <= i < |drains| ==> drains[i] == 0
  }

  ghost predicate OnlyFirstFill<T>(fills: seq<seq<T>>) {
    fills != [] && forall i :: 1 <= i < |fills| ==> fills[i] == []
  }

  ghost predicate NoFills<T>(fills: seq<seq<T>>) {
    forall i :: 0 <= i < |fills| ==> fills[i] == []
  }

  // What callback number `calls` has to write.
  function FillAt<T>(fills: seq<seq<T>>, calls: nat): (fill: seq<T>)
    ensures NoFills(fills) ==> fill == []
    ensures OnlyFirstFill(fills) ==> fill == if calls == 0 then fills[0] else []
  {
    if calls < |fills| then fills[calls] else []
  }

  // How much the callbacks have written after the given number of them: the first had so much room.
  ghost predicate ProducedBy<T>(n: nat, calls: nat, fills: seq<seq<T>>, room: int) {
    && (NoFills(fills) || calls == 0 ==> n == 0)
    && (calls > 0 && OnlyFirstFill(fills) ==> n == Min(|fills[0]|, room))
  }

  lemma ProducedMore<T>(n: nat, calls: nat, fills: seq<seq<T>>, room: int, roomNow: nat)
    requires ProducedBy(n, calls, fills, room) && (calls == 0 ==> roomNow == room)
    ensures ProducedBy(n + Min(|FillAt(fills, calls)|, roomNow), calls + 1, fills, room)
  {
  }

  // width: the number of bits of the index type. contents: what was written and not read.
  class Ringbuffer<T(0)> {
    const size: nat
    const width: nat
    const data: array<T>
    var head: nat
    var tail: nat
    ghost var contents: seq<T>

    ghost predicate Valid()
      reads this, data
    {
      && SizeOk(size, width) && data.Length == size <= Pow2(width)
      && tail < Pow2(width) && Window(data[..], tail, contents)
      && head == Wrap(tail + |contents|, Pow2(width))
    }

    constructor (bufferSize: nat, indexWidth: nat)
      requires SizeOk(bufferSize, indexWidth)
      ensures Valid() && contents == [] && size == bufferSize && width == indexWidth && fresh(data)
    {
      HalfRange(bufferSize, indexWidth);
      size, width := bufferSize, indexWidth;
      data := new T[bufferSize];
      head, tail, contents := 0, 0, [];
    }

    method ReadAvailable() returns (n: nat)
      requires Valid()
      ensures n == |contents|
    {
      HalfRange(size, width);
      n := Wrap(head - tail, Pow2(width));
    }

    method WriteAvailable() returns (n: nat)
      requires Valid()
      ensures n == size - |contents|
    {
      HalfRange(size, width);
      n := size - Wrap(head - tail, Pow2(width));
    }

    // data_buff[tmp_head++ & buffer_mask] = x, before the new head is stored.
    method Place(tmpHead: nat, x: T, ghost pending: seq<T>) returns (next: nat)
      requires Valid() && contents <= pending && |pending| < size
      requires tmpHead == Wrap(tail + |pending|, Pow2(width)) && Window(data[..], tail, pending)
      modifies data
      ensures Valid() && next == Wrap(tail + |pending| + 1, Pow2(width)) && Window(data[..], tail, pending + [x])
    {
      HalfRange(size, width);
      WrapKeepsSlot(size, width, tail + |pending|);
      WindowGrows(data[..], width, tail, pending, x);
      data[Slot(tmpHead, size)] := x;
      next := Wrap(tmpHead + 1, Pow2(width));
      WindowOfPrefix(data[..], tail, pending + [x], contents);
    }

    // insert, all three overloads. The full test does not wrap narrow indices. Where it misses
    // a full buffer, the oldest element is overwritten and the indices end up size + 1 apart.
    method Insert(x: T) returns (ok: bool)
      requires Valid()
      modifies this`head, this`contents, data
      ensures ok <==> |old(contents)| < size || !FullTestWorks(tail, size, width)
      ensures |old(contents)| < size || FullTestWorks(tail, size, width) ==>
        Valid() && contents == if ok then old(contents) + [x] else old(contents)
      ensures |old(contents)| == size && !FullTestWorks(tail, size, width) ==>
        && contents == old(contents) && data[..] == old(data[..])[Slot(tail, size) := x]
        && size < Pow2(width) && head == Wrap(tail + size + 1, Pow2(width))
    {
      HalfRange(size, width);
      FullTestExact(size, width, tail, |contents|);
      if Difference(head, tail, width) == size {
        return false;
      }
      WrapKeepsSlot(size, width, tail + |contents|);
      if |contents| < size {
        WindowGrows(data[..], width, tail, contents, x);
        contents := contents + [x];
      } else {
        SlotRepeats(size, width, tail);
      }
      data[Slot(head, size)] := x;
      head := Wrap(head + 1, Pow2(width));
      return true;
    }

    // data_buff[tmp_tail & buffer_mask] for element i after the tail
    method At(tmpTail: nat, ghost i: nat) returns (x: T)
      requires Valid() && i < |contents| && tmpTail == Wrap(tail + i, Pow2(width))
      ensures x == contents[i]
    {
      WrapKeepsSlot(size, width, tail + i);
      assert InSlot(data[..], tail, contents, i);
      x := data[Slot(tmpTail, size)];
    }

    // tail.store after n elements have been read
    method Drop(n: nat)
      requires Valid() && n <= |contents|
      modifies this`tail, this`contents
      ensures Valid() && contents == old(contents)[n..]
    {
      HalfRange(size, width);
      WindowShrinks(data[..], width, tail, contents, n);
      tail, contents := Wrap(tail + n, Pow2(width)), contents[n..];
    }

    // remove(T*)
    method RemoveInto() returns (r: Option<T>)
      requires Valid()
      modifies this`tail, this`contents
      ensures Valid()
      ensures match r
        case None => old(contents) == [] && contents == []
        case Some(x) => old(contents) == [x] + contents
    {
      HalfRange(size, width);
      if tail == head {
        return None;
      }
      var x := At(tail, 0);
      Drop(1);
      return Some(x);
    }

    // remove(cnt)
    method RemoveMany(cnt: nat) returns (n: nat)
      requires Valid()
      modifies this`tail, this`contents
      ensures Valid() && n == Min(cnt, |old(contents)|) && contents == old(contents)[n..]
    {
      var avail := ReadAvailable();
      n := if cnt > avail then avail else cnt;
      Drop(n);
    }

    // writeBuff(buff, count)
    method WriteBuff(buff: seq<T>) returns (n: nat)
      requires Valid()
      modifies this`head, this`contents, data
      ensures Valid() && n == Min(|buff|, size - |old(contents)|)
      ensures contents == old(contents) + buff[..n]
    {
      n := |buff|;
      var available := WriteAvailable();
      if available < n {
        n := available;
      }
      Store(buff[..n]);
    }

    // The copy loop and the store of the new head.
    method Store(xs: seq<T>)
      requires Valid() && |contents| + |xs| <= size
      modifies this`head, this`contents, data
      ensures Valid() && contents == old(contents) + xs
    {
      HalfRange(size, width);
      var tmpHead := head;
      assert contents + xs[..0] == contents;
      for i := 0 to |xs|
        invariant Valid() && tmpHead == Wrap(tail + |contents| + i, Pow2(width))
        invariant Window(data[..], tail, contents + xs[..i])
        modifies data
      {
        tmpHead := Place(tmpHead, xs[i], contents + xs[..i]);
        assert contents + xs[..i + 1] == contents + xs[..i] + [xs[i]];
      }
      assert xs[..|xs|] == xs;
      head, contents := tmpHead, contents + xs;
    }

    // One chunk, and the callback after it.
    method WriteChunk(buff: seq<T>, written: nat, toWrite: nat, drain: nat, ghost consumed: seq<T>, ghost x: seq<T>)
      returns (ghost more: seq<T>)
      requires Valid() && written + toWrite <= |buff| && toWrite <= size - |contents|
      requires consumed + contents == x + buff[..written]
      modifies this, data
      ensures Valid() && (consumed + more) + contents == x + buff[..written + toWrite]
      ensures |more| == Min(drain, |old(contents)| + toWrite)
      ensures |more| + |contents| == |old(contents)| + toWrite
    {
      ghost var chunk := buff[written..written + toWrite];
      PourInto(consumed, contents, x, buff[..written], chunk);
      assert buff[..written] + chunk == buff[..written + toWrite];
      Store(buff[written..written + toWrite]);
      ghost var before := contents;
      var n := RemoveMany(drain);
      more := before[..n];
      PourThrough(consumed, before, n, x, buff[..written + toWrite]);
    }

    // writeBuff with a callback. After chunk i the callback lets the consumer remove up to
    // drains[i] elements; with no drains it is a null pointer.
    method WriteBuffInChunks(buff: seq<T>, countToCallback: nat, drains: seq<nat>)
      returns (written: nat, ghost consumed: seq<T>)
      requires Valid()
      modifies this, data
      ensures Valid() && written <= |buff| && consumed + contents == old(contents) + buff[..written]
      ensures written == |buff| || |contents| == size
      ensures (forall i :: 0 <= i < |drains| ==> drains[i] == 0) ==>
        consumed == [] && written == Min(|buff|, size - |old(contents)|)
      ensures OnlyFirst(drains) && buff != [] && |old(contents)| < size ==>
        |consumed| == Min(drains[0], |old(contents)| + FirstChunk(|buff|, countToCallback, size - |old(contents)|))
    {
      written, consumed := 0, [];
      ghost var first := FirstChunk(|buff|, countToCallback, size - |contents|);
      var toWrite := if countToCallback != 0 && countToCallback < |buff| then countToCallback else |buff|;
      var calls := 0;
      while written < |buff|
        invariant Valid() && written <= |buff| && consumed + contents == old(contents) + buff[..written]
        invariant 0 < toWrite <= |buff| - written || written == |buff|
        invariant (forall i :: 0 <= i < |drains| ==> drains[i] == 0) ==> consumed == []
        invariant calls == 0 ==> contents == old(contents) && written == 0 && consumed == []
        invariant calls == 0 ==> Min(toWrite, size - |contents|) == first
        invariant calls > 0 && OnlyFirst(drains) ==> |consumed| == Min(drains[0], |old(contents)| + first)
        decreases |buff| - written
      {
        var available := WriteAvailable();
        if available == 0 {
          break;
        }
        if toWrite > available {
          toWrite := available;
        }
        var drain := if calls < |drains| then drains[calls] else 0;
        ghost var more := WriteChunk(buff, written, toWrite, drain, consumed, old(contents));
        written, consumed, calls := written + toWrite, consumed + more, calls + 1;
        toWrite := |buff| - written;
      }
    }

    // readBuff(buff, count)
    method ReadBuff(buff: array<T>, count: nat) returns (n: nat)
      requires Valid() && buff != data && count <= buff.Length
      modifies this`tail, this`contents, buff
      ensures Valid() && n == Min(count, |old(contents)|)
      ensures buff[..] == old(contents)[..n] + old(buff[n..]) && contents == old(contents)[n..]
    {
      n := count;
      var available := ReadAvailable();
      if available < n {
        n := available;
      }
      Load(buff, 0, n);
    }

    // The copy loop into buff[from..] and the store of the new tail.
    method Load(buff: array<T>, from: nat, n: nat)
      requires Valid() && buff != data && from + n <= buff.Length && n <= |contents|
      modifies this`tail, this`contents, buff
      ensures Valid() && contents == old(contents)[n..]
      ensures buff[..] == old(buff[..from]) + old(contents)[..n] + old(buff[from + n..])
    {
      HalfRange(size, width);
      var tmpTail := tail;
      for i := 0 to n
        invariant Valid() && tmpTail == Wrap(tail + i, Pow2(width))
        invariant buff[..] == old(buff[..from]) + contents[..i] + old(buff[from + i..])
        modifies buff
      {
        buff[from + i] := At(tmpTail, i);
        tmpTail := Wrap(tmpTail + 1, Pow2(width));
      }
      Drop(n);
    }

    // One chunk, and the callback after it.
    method ReadChunk(buff: array<T>, read: nat, toRead: nat, fill: seq<T>,
                     ghost was: seq<T>, ghost x: seq<T>, ghost y: seq<T>)
      returns (ghost more: seq<T>)
      requires Valid() && buff != data && read + toRead <= buff.Length && toRead <= |contents|
      requires buff[..read] + contents == x + y && |was| == buff.Length && buff[read..] == was[read..]
      modifies this`head, this`tail, this`contents, data, buff
      ensures Valid() && buff[..read + toRead] + contents == x + (y + more)
      ensures buff[read + toRead..] == was[read + toRead..]
      ensures fill == [] ==> more == [] && contents == old(contents)[toRead..]
      ensures |more| == Min(|fill|, size - (|old(contents)| - toRead))
    {
      PourThrough(buff[..read], contents, toRead, x, y);
      EndsAgree(buff[..], was, read, read + toRead);
      ghost var front := buff[..read] + contents[..toRead];
      Load(buff, read, toRead);
      assert buff[..read + toRead] == front;
      ghost var rest := contents;
      var n := WriteBuff(fill);
      more := fill[..n];
      PourInto(front, rest, x, y, more);
    }

    // readBuff with a callback. After chunk i the callback lets the producer write fills[i].
    method ReadBuffInChunks(buff: array<T>, count: nat, countToCallback: nat, fills: seq<seq<T>>)
      returns (read: nat, ghost produced: seq<T>)
      requires Valid() && buff != data && count <= buff.Length
      modifies this`head, this`tail, this`contents, data, buff
      ensures Valid() && read <= count && buff[..read] + contents == old(contents) + produced
      ensures buff[read..] == old(buff[read..])
      ensures read == count || contents == []
      ensures NoFills(fills) ==> produced == [] && read == Min(count, |old(contents)|)
      ensures OnlyFirstFill(fills) && count > 0 && old(contents) != [] ==>
        |produced| == Min(|fills[0]|, size - |old(contents)| + FirstChunk(count, countToCallback, |old(contents)|))
    {
      read, produced := 0, [];
      ghost var first := FirstChunk(count, countToCallback, |contents|);
      var toRead := if countToCallback != 0 && countToCallback < count then countToCallback else count;
      var calls := 0;
      while read < count
        invariant Valid() && read <= count && buff[..read] + contents == old(contents) + produced
        invariant buff[read..] == old(buff[read..])
        invariant 0 < toRead <= count - read || read == count
        invariant ProducedBy(|produced|, calls, fills, size - |old(contents)| + first)
        invariant calls == 0 ==> contents == old(contents) && Min(toRead, |contents|) == first
        decreases count - read
      {
        var available := ReadAvailable();
        if available == 0 {
          break;
        }
        if toRead > available {
          toRead := available;
        }
        var fill := FillAt(fills, calls);
        ProducedMore(|produced|, calls, fills, size - |old(contents)| + first, size - |contents| + toRead);
        ghost var more := ReadChunk(buff, read, toRead, fill, old(buff[..]), old(contents), produced);
        read, produced, calls := read + toRead, produced + more, calls + 1;
        toRead := count - read;
      }
    }
  }
}
