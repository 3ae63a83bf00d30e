/**
 The list of unused regions of the guest address space and the function that takes a region out
 of it. Addresses are 64-bit, so base + size can wrap.
 */
module Placeholders {
  import opened Wrappers

  const U64 := 0x1_0000_0000_0000_0000

  datatype Placeholder = Placeholder(base: nat, extent: nat)

  function End(p: Placeholder): nat {
    p.base + p.extent
  }

  predicate Covers(p: Placeholder, addr: int) {
    p.base <= addr < End(p)
  }

  // How many of the regions hold an address.
  function Count(ps: seq<Placeholder>, addr: int): nat {
    if ps == [] then 0 else (if Covers(ps[0], addr) then 1 else 0) + Count(ps[1..], addr)
  }

  predicate Touch(p: Placeholder, q: Placeholder) {
    End(p) == q.base
  }

  // Free regions are not empty and no two of them could be one.
  ghost predicate Separate(ps: seq<Placeholder>) {
    && (forall p :: p in ps ==> p.extent > 0)
    && forall p, q :: p in ps && q in ps ==> !Touch(p, q)
  }

  // Free and allocated regions cover every address below space once, and no other.
  ghost predicate Partition(free: seq<Placeholder>, taken: seq<Placeholder>, space: nat) {
    forall addr: int :: Count(free, addr) + Count(taken, addr) == if 0 <= addr < space then 1 else 0
  }

  ghost predicate Inv(free: seq<Placeholder>, taken: seq<Placeholder>, space: nat) {
    space < U64 && Separate(free) && Partition(free, taken, space)
  }

  // ------------------------------------------------------------------- counting

  lemma {:induction false} CountConcat(a: seq<Placeholder>, b: seq<Placeholder>, addr: int)
    ensures Count(a + b, addr) == Count(a, addr) + Count(b, addr)
    decreases |a|
  {
    if a == [] {
      assert a + b == b;
    } else {
      assert (a + b)[1..] == a[1..] + b;
      CountConcat(a[1..], b, addr);
    }
  }

  lemma CountOf(ps: seq<Placeholder>, i: nat, addr: int)
    requires i < |ps|
    ensures Count(ps, addr) == (if Covers(ps[i], addr) then 1 else 0) + Count(ps[..i] + ps[i + 1..], addr)
  {
    assert ps == ps[..i] + ([ps[i]] + ps[i + 1..]);
    assert ([ps[i]] + ps[i + 1..])[1..] == ps[i + 1..];
    CountConcat(ps[..i], [ps[i]] + ps[i + 1..], addr);
    CountConcat(ps[..i], ps[i + 1..], addr);
  }

  lemma {:induction false} CountFinds(ps: seq<Placeholder>, addr: int) returns (i: nat)
    requires Count(ps, addr) > 0
    ensures i < |ps| && Covers(ps[i], addr)
    decreases |ps|
  {
    if Covers(ps[0], addr) {
      i := 0;
    } else {
      var j := CountFinds(ps[1..], addr);
      i := j + 1;
    }
  }

  lemma CountTwo(ps: seq<Placeholder>, i: nat, j: nat, addr: int)
    requires i < j < |ps| && Covers(ps[i], addr) && Covers(ps[j], addr)
    ensures Count(ps, addr) >= 2
  {
    CountOf(ps, i, addr);
    var rest := ps[..i] + ps[i + 1..];
    assert rest[j - 1] == ps[j];
    CountOf(rest, j - 1, addr);
  }

  // Two free regions do not overlap.
  lemma NoOverlap(free: seq<Placeholder>, taken: seq<Placeholder>, space: nat, i: nat, j: nat, addr: int)
    requires Inv(free, taken, space) && i < |free| && j < |free| && Covers(free[i], addr) && Covers(free[j], addr)
    ensures i == j
  {
    assert Count(free, addr) + Count(taken, addr) <= 1;
    if i < j {
      CountTwo(free, i, j, addr);
    } else if j < i {
      CountTwo(free, j, i, addr);
    }
  }

  lemma InSpace(free: seq<Placeholder>, taken: seq<Placeholder>, space: nat, i: nat)
    requires Inv(free, taken, space) && i < |free|
    ensures End(free[i]) <= space
  {
    var last := End(free[i]) - 1;
    assert Covers(free[i], last);
    CountOf(free, i, last);
    assert Count(free, last) + Count(taken, last) == if 0 <= last < space then 1 else 0;
  }

  // ------------------------------------------------------------------- the search

  // The sum of two 64-bit numbers.
  function Wrap(sum: nat): nat {
    if sum < U64 then sum else sum - U64
  }

  // The predicate the search uses, in 64-bit arithmetic.
  predicate Fits(p: Placeholder, base: nat, size: nat) {
    base >= p.base && Wrap(base + size) <= Wrap(End(p))
  }

  // Every address of the range is free.
  ghost predicate RangeFree(free: seq<Placeholder>, base: nat, size: nat) {
    forall addr: int :: base <= addr < base + size ==> Count(free, addr) > 0
  }

  lemma NoWrap(p: Placeholder, base: nat, size: nat)
    requires base + size < U64 && End(p) < U64
    ensures Fits(p, base, size) <==> p.base <= base && base + size <= End(p)
  {
  }

  // No region goes on where another ends.
  lemma NotFreeAfter(free: seq<Placeholder>, taken: seq<Placeholder>, space: nat, i: nat, j: nat)
    requires Inv(free, taken, space) && i < |free| && j < |free|
    ensures !Covers(free[j], End(free[i]))
  {
    assert !Touch(free[i], free[j]) && free[i].extent > 0 && free[j].extent > 0;
    if Covers(free[j], End(free[i])) {
      NoOverlap(free, taken, space, i, j, Max(free[i].base, End(free[i]) - 1));
    }
  }

  // A free range lies in one region, because regions that touch would be one.
  lemma RangeInOne(free: seq<Placeholder>, taken: seq<Placeholder>, space: nat, base: nat, size: nat)
    returns (i: nat)
    requires Inv(free, taken, space) && RangeFree(free, base, size) && size > 0
    ensures i < |free| && free[i].base <= base && base + size <= End(free[i])
  {
    i := CountFinds(free, base);
    if base + size > End(free[i]) {
      var j := CountFinds(free, End(free[i]));
      NotFreeAfter(free, taken, space, i, j);
    }
  }

  ghost predicate Found(free: seq<Placeholder>, base: nat, size: nat) {
    exists i :: 0 <= i < |free| && Fits(free[i], base, size)
  }

  // The search succeeds exactly when the whole range is free, as long as base + size does not
  // wrap.
  lemma SearchIsExact(free: seq<Placeholder>, taken: seq<Placeholder>, space: nat, base: nat, size: nat)
    requires Inv(free, taken, space) && base + size < U64 && 0 < size
    ensures Found(free, base, size) <==> RangeFree(free, base, size)
  {
    if RangeFree(free, base, size) {
      var i := RangeInOne(free, taken, space, base, size);
      InSpace(free, taken, space, i);
      NoWrap(free[i], base, size);
    }
    if i :| 0 <= i < |free| && Fits(free[i], base, size) {
      InSpace(free, taken, space, i);
      NoWrap(free[i], base, size);
      forall addr: int | base <= addr < base + size
        ensures Count(free, addr) > 0
      {
        CountOf(free, i, addr);
      }
    }
  }

  // Region p starts no later than the request and the request's end, wrapped, lies in it.
  predicate WrapsInto(p: Placeholder, base: nat, size: nat) {
    p.base <= base && base + size - U64 <= End(p)
  }

  // A request that wraps is never free, and is granted exactly when it wraps into a region.
  lemma WrappingSearch(free: seq<Placeholder>, taken: seq<Placeholder>, space: nat, base: nat, size: nat)
    requires Inv(free, taken, space) && base < U64 && size < U64 && base + size >= U64
    ensures !RangeFree(free, base, size)
    ensures Found(free, base, size) <==> exists i :: 0 <= i < |free| && WrapsInto(free[i], base, size)
  {
    var last := base + size - 1;
    assert Count(free, last) + Count(taken, last) == 0;
    assert base <= last < base + size;
    forall i | 0 <= i < |free|
      ensures Fits(free[i], base, size) <==> WrapsInto(free[i], base, size)
    {
      InSpace(free, taken, space, i);
    }
  }

  // Such a request nothing of which is free.
  lemma WrappingRequestGranted()
    ensures Inv([Placeholder(0, 0x1000)], [], 0x1000)
    ensures Fits(Placeholder(0, 0x1000), 0x2000, 0xFFFF_FFFF_FFFF_E000)
    ensures !RangeFree([Placeholder(0, 0x1000)], 0x2000, 0xFFFF_FFFF_FFFF_E000)
  {
    var free := [Placeholder(0, 0x1000)];
    forall addr: int
      ensures Count(free, addr) + Count([], addr) == if 0 <= addr < 0x1000 then 1 else 0
    {
      assert free[1..] == [];
    }
    assert Count(free, 0x2000) == 0;
  }

  // ------------------------------------------------------------------- the split

  // What stays free of a region when [base, base + size) is taken out of it.
  function Pieces(p: Placeholder, base: nat, size: nat): seq<Placeholder>
    requires p.base <= base && base + size <= End(p)
  {
    if p.base == base then
      if size != p.extent then [Placeholder(base + size, p.extent - size)] else []
    else if End(p) == base + size then [Placeholder(p.base, base - p.base)]
    else [Placeholder(p.base, base - p.base), Placeholder(base + size, End(p) - (base + size))]
  }

  function Erase(ps: seq<Placeholder>, i: nat): seq<Placeholder>
    requires i < |ps|
  {
    ps[..i] + ps[i + 1..]
  }

  lemma PiecesCount(p: Placeholder, base: nat, size: nat, addr: int)
    requires p.base <= base && base + size <= End(p)
    ensures Count(Pieces(p, base, size), addr) + Count([Placeholder(base, size)], addr)
      == if Covers(p, addr) then 1 else 0
  {
    var ps := Pieces(p, base, size);
    if |ps| == 2 {
      assert Count(ps[1..], addr) == (if Covers(ps[1], addr) then 1 else 0) + Count(ps[1..][1..], addr);
    }
  }

  lemma CountOfMember(ps: seq<Placeholder>, p: Placeholder, addr: int)
    requires p in ps && Covers(p, addr)
    ensures Count(ps, addr) > 0
  {
    var i :| 0 <= i < |ps| && ps[i] == p;
    CountOf(ps, i, addr);
  }

  // No other free region holds an address of region i.
  lemma OthersElsewhere(free: seq<Placeholder>, taken: seq<Placeholder>, space: nat, i: nat, r: Placeholder, addr: int)
    requires Inv(free, taken, space) && i < |free| && r in Erase(free, i) && Covers(free[i], addr)
    ensures !Covers(r, addr)
  {
    CountOf(free, i, addr);
    assert Count(free, addr) + Count(taken, addr) <= 1;
    if Covers(r, addr) {
      CountOfMember(Erase(free, i), r, addr);
    }
  }

  // A piece touches no other free region.
  lemma PieceStandsAlone(free: seq<Placeholder>, taken: seq<Placeholder>, space: nat, i: nat,
                         base: nat, size: nat, piece: Placeholder, r: Placeholder)
    requires Inv(free, taken, space) && i < |free| && size > 0
    requires free[i].base <= base && base + size <= End(free[i])
    requires piece in Pieces(free[i], base, size) && r in Erase(free, i)
    ensures !Touch(piece, r) && !Touch(r, piece)
  {
    var p := free[i];
    assert r in free && !Touch(p, r) && !Touch(r, p) && r.extent > 0;
    OthersElsewhere(free, taken, space, i, r, base);
    OthersElsewhere(free, taken, space, i, r, base + size - 1);
  }

  lemma SplitKeepsInv(free: seq<Placeholder>, taken: seq<Placeholder>, space: nat, i: nat, base: nat, size: nat)
    requires Inv(free, taken, space) && i < |free| && size > 0
    requires free[i].base <= base && base + size <= End(free[i])
    ensures Inv(Erase(free, i) + Pieces(free[i], base, size), taken + [Placeholder(base, size)], space)
  {
    var pieces, rest := Pieces(free[i], base, size), Erase(free, i);
    var free', taken' := rest + pieces, taken + [Placeholder(base, size)];
    forall addr: int
      ensures Count(free', addr) + Count(taken', addr) == if 0 <= addr < space then 1 else 0
    {
      CountOf(free, i, addr);
      PiecesCount(free[i], base, size, addr);
      CountConcat(rest, pieces, addr);
      CountConcat(taken, [Placeholder(base, size)], addr);
      assert Count(free, addr) + Count(taken, addr) == if 0 <= addr < space then 1 else 0;
    }
    forall p, q | p in free' && q in free'
      ensures !Touch(p, q)
    {
      if p in rest && q in rest {
        assert p in free && q in free;
      } else if p in rest {
        PieceStandsAlone(free, taken, space, i, base, size, q, p);
      } else if q in rest {
        PieceStandsAlone(free, taken, space, i, base, size, p, q);
      }
    }
    forall p | p in free'
      ensures p.extent > 0
    {
      assert p in rest ==> p in free;
    }
  }

  // With size 0 the list stays separate exactly when the point is an end of its region.
  lemma EmptySplitSeparates(free: seq<Placeholder>, taken: seq<Placeholder>, space: nat, i: nat, base: nat)
    requires Inv(free, taken, space) && i < |free| && free[i].base <= base <= End(free[i])
    ensures Separate(Erase(free, i) + Pieces(free[i], base, 0)) <==> base == free[i].base || base == End(free[i])
  {
    var p, pieces := free[i], Pieces(free[i], base, 0);
    var free' := Erase(free, i) + pieces;
    if base == p.base || base == End(p) {
      assert p.extent > 0;
      assert pieces == [p];
      forall q | q in free'
        ensures q in free
      {
      }
    } else {
      assert pieces[0] in free' && pieces[1] in free' && Touch(pieces[0], pieces[1]);
    }
  }

  // Exactly the addresses of the range are no longer free.
  ghost predicate TakenOut(free: seq<Placeholder>, free': seq<Placeholder>, base: nat, size: nat) {
    forall addr: int :: Count(free, addr) == Count(free', addr) + if base <= addr < base + size then 1 else 0
  }

  // ------------------------------------------------------------------- the split, in 64 bits

  function Sub(a: nat, b: nat): int {
    if a >= b then a - b else a - b + U64
  }

  predicate Words(ps: seq<Placeholder>) {
    forall p :: p in ps ==> p.base < U64 && p.extent < U64
  }

  // What the program puts on the list for region p, whatever the request.
  function Remains(p: Placeholder, base: nat, size: nat): seq<Placeholder>
    requires p.base <= base < U64 && p.extent < U64 && size < U64
  {
    var end := Wrap(base + size);
    if p.base == base then
      if size != p.extent then [Placeholder(end, Sub(p.extent, size))] else []
    else if Wrap(End(p)) == end then [Placeholder(p.base, base - p.base)]
    else [Placeholder(p.base, base - p.base), Placeholder(end, Sub(Wrap(End(p)), end))]
  }

  ghost predicate FirstFit(free: seq<Placeholder>, base: nat, size: nat, i: nat) {
    i < |free| && Fits(free[i], base, size) && forall j :: 0 <= j < i ==> !Fits(free[j], base, size)
  }

  // The list after a call: the first region that fits is replaced by what remains of it.
  ghost predicate SplitTo(free: seq<Placeholder>, free': seq<Placeholder>, base: nat, size: nat)
    requires Words(free) && base < U64 && size < U64
  {
    && (forall i: nat :: FirstFit(free, base, size, i) ==> free' == Erase(free, i) + Remains(free[i], base, size))
    && (!Found(free, base, size) ==> free' == free)
  }

  lemma {:induction false} FirstOf(free: seq<Placeholder>, base: nat, size: nat, n: nat) returns (i: nat)
    requires n < |free| && Fits(free[n], base, size)
    ensures FirstFit(free, base, size, i)
    decreases n
  {
    i := n;
    if j :| 0 <= j < n && Fits(free[j], base, size) {
      i := FirstOf(free, base, size, j);
    }
  }

  lemma SplitAtFirst(free: seq<Placeholder>, free': seq<Placeholder>, base: nat, size: nat, i: nat)
    requires Words(free) && base < U64 && size < U64 && FirstFit(free, base, size, i)
    requires free' == Erase(free, i) + Remains(free[i], base, size)
    ensures SplitTo(free, free', base, size)
  {
    forall j: nat | FirstFit(free, base, size, j)
      ensures j == i
    {
    }
  }

  // An address is counted as before but for region i and what replaces it.
  lemma CountReplaced(free: seq<Placeholder>, i: nat, ps: seq<Placeholder>, addr: int)
    requires i < |free|
    ensures Count(Erase(free, i) + ps, addr) + (if Covers(free[i], addr) then 1 else 0)
      == Count(free, addr) + Count(ps, addr)
  {
    CountOf(free, i, addr);
    CountConcat(Erase(free, i), ps, addr);
  }

  lemma InvWords(free: seq<Placeholder>, taken: seq<Placeholder>, space: nat)
    requires Inv(free, taken, space)
    ensures Words(free)
  {
    forall p | p in free
      ensures p.base < U64 && p.extent < U64
    {
      var i :| 0 <= i < |free| && free[i] == p;
      InSpace(free, taken, space, i);
    }
  }

  lemma RemainsIsPieces(p: Placeholder, base: nat, size: nat)
    requires p.base <= base && base + size <= End(p) < U64
    ensures Remains(p, base, size) == Pieces(p, base, size)
  {
  }

  // A request that does not wrap and is not empty takes out exactly its range, or, exactly when
  // the range is not free, nothing.
  lemma SplitTakesOut(free: seq<Placeholder>, taken: seq<Placeholder>, space: nat, base: nat, size: nat,
                      free': seq<Placeholder>)
    requires Inv(free, taken, space) && base + size < U64 && 0 < size
    requires Words(free) && SplitTo(free, free', base, size)
    ensures RangeFree(free, base, size) ==>
      Inv(free', taken + [Placeholder(base, size)], space) && TakenOut(free, free', base, size)
    ensures !RangeFree(free, base, size) ==> free' == free
  {
    SearchIsExact(free, taken, space, base, size);
    if n :| 0 <= n < |free| && Fits(free[n], base, size) {
      var i := FirstOf(free, base, size, n);
      InSpace(free, taken, space, i);
      NoWrap(free[i], base, size);
      RemainsIsPieces(free[i], base, size);
      SplitKeepsInv(free, taken, space, i, base, size);
      forall addr: int
        ensures Count(free, addr) == Count(free', addr) + if base <= addr < base + size then 1 else 0
      {
        CountReplaced(free, i, Pieces(free[i], base, size), addr);
        PiecesCount(free[i], base, size, addr);
      }
    }
  }

  // An empty request changes no address, but leaves regions that touch exactly when its point
  // is inside a region.
  lemma SplitOfNothing(free: seq<Placeholder>, taken: seq<Placeholder>, space: nat, base: nat, free': seq<Placeholder>)
    requires Inv(free, taken, space) && base < U64 && Words(free) && SplitTo(free, free', base, 0)
    ensures forall addr: int :: Count(free', addr) == Count(free, addr)
    ensures Separate(free') <==> !exists i :: 0 <= i < |free| && free[i].base < base < End(free[i])
  {
    forall i | 0 <= i < |free|
      ensures Fits(free[i], base, 0) <==> free[i].base <= base <= End(free[i])
    {
      InSpace(free, taken, space, i);
      NoWrap(free[i], base, 0);
    }
    if n :| 0 <= n < |free| && Fits(free[n], base, 0) {
      var i := FirstOf(free, base, 0, n);
      InSpace(free, taken, space, i);
      RemainsIsPieces(free[i], base, 0);
      EmptySplitSeparates(free, taken, space, i, base);
      forall addr: int
        ensures Count(free', addr) == Count(free, addr)
      {
        CountReplaced(free, i, Pieces(free[i], base, 0), addr);
        PiecesCount(free[i], base, 0, addr);
      }
      forall j | 0 <= j < |free| && free[j].base < base < End(free[j])
        ensures j == i
      {
        AtMostOneAround(free, taken, space, i, j, base);
      }
    }
  }

  // Two free regions around or at the end of one point are the same region.
  lemma AtMostOneAround(free: seq<Placeholder>, taken: seq<Placeholder>, space: nat, i: nat, j: nat, base: nat)
    requires Inv(free, taken, space) && i < |free| && j < |free|
    requires free[i].base <= base <= End(free[i]) && free[j].base < base < End(free[j])
    ensures i == j
  {
    assert free[i].extent > 0;
    if base < End(free[i]) {
      NoOverlap(free, taken, space, i, j, base);
    } else {
      NoOverlap(free, taken, space, i, j, base - 1);
    }
  }

  // At least the addresses free before are free, and some address is free once too often.
  ghost predicate FreesTooMuch(free: seq<Placeholder>, free': seq<Placeholder>) {
    && (forall addr: int :: Count(free', addr) >= Count(free, addr))
    && exists addr: int :: Count(free', addr) > Count(free, addr)
  }

  // What remains of a region by a request that wraps into it covers the region, and an address
  // outside it or one of its addresses twice.
  lemma WrappedRemains(p: Placeholder, base: nat, size: nat) returns (extra: int)
    requires 0 < p.extent && End(p) < U64 && base < U64 && size < U64 && base + size >= U64
    requires WrapsInto(p, base, size)
    ensures forall addr: int :: Count(Remains(p, base, size), addr) >= if Covers(p, addr) then 1 else 0
    ensures Count(Remains(p, base, size), extra) > if Covers(p, extra) then 1 else 0
  {
    var end, rs := base + size - U64, Remains(p, base, size);
    extra := if p.base == base then end else if End(p) == end then End(p) else Max(p.base, end);
    forall addr: int
      ensures Count(rs, addr) >= if Covers(p, addr) then 1 else 0
      ensures addr == extra ==> Count(rs, addr) > if Covers(p, addr) then 1 else 0
    {
      if |rs| == 2 {
        assert Count(rs[1..], addr) == (if Covers(rs[1], addr) then 1 else 0) + Count(rs[1..][1..], addr);
      }
    }
  }

  lemma WrappedSplitFreesTooMuch(free: seq<Placeholder>, i: nat, base: nat, size: nat)
    requires i < |free| && 0 < free[i].extent && End(free[i]) < U64
    requires base < U64 && size < U64 && base + size >= U64 && WrapsInto(free[i], base, size)
    ensures FreesTooMuch(free, Erase(free, i) + Remains(free[i], base, size))
  {
    var rs := Remains(free[i], base, size);
    var extra := WrappedRemains(free[i], base, size);
    forall addr: int
      ensures Count(Erase(free, i) + rs, addr) >= Count(free, addr)
    {
      CountReplaced(free, i, rs, addr);
    }
    CountReplaced(free, i, rs, extra);
    assert Count(Erase(free, i) + rs, extra) > Count(free, extra);
  }

  // A request that wraps, if granted, makes the list claim more than is free; otherwise it
  // leaves the list alone.
  lemma SplitWrapping(free: seq<Placeholder>, taken: seq<Placeholder>, space: nat, base: nat, size: nat,
                      free': seq<Placeholder>)
    requires Inv(free, taken, space) && base < U64 && size < U64 && base + size >= U64
    requires Words(free) && SplitTo(free, free', base, size)
    ensures (exists i :: 0 <= i < |free| && WrapsInto(free[i], base, size)) ==> FreesTooMuch(free, free')
    ensures !(exists i :: 0 <= i < |free| && WrapsInto(free[i], base, size)) ==> free' == free
  {
    WrappingSearch(free, taken, space, base, size);
    if n :| 0 <= n < |free| && Fits(free[n], base, size) {
      var i := FirstOf(free, base, size, n);
      InSpace(free, taken, space, i);
      assert free[i] in free;
      WrappedSplitFreesTooMuch(free, i, base, size);
    }
  }

  // ------------------------------------------------------------------- the address space

  class AddressSpace {
    const space: nat
    var placeholders: seq<Placeholder>
    ghost var taken: seq<Placeholder>

    ghost predicate Valid()
      reads this
    {
      Inv(placeholders, taken, space)
    }

    constructor (size: nat)
      requires 0 < size < U64
      ensures Valid() && placeholders == [Placeholder(0, size)] && taken == []
    {
      space, placeholders, taken := size, [Placeholder(0, size)], [];
      new;
      assert placeholders[1..] == [];
    }

    // std::find_if over the list
    method Find(base: nat, size: nat) returns (i: nat)
      ensures if i == |placeholders| then !Found(placeholders, base, size) else FirstFit(placeholders, base, size, i)
    {
      i := 0;
      while i < |placeholders| && !Fits(placeholders[i], base, size)
        invariant i <= |placeholders|
        invariant forall j :: 0 <= j < i ==> !Fits(placeholders[j], base, size)
      {
        i := i + 1;
      }
    }

    // SplitRegion; released is what VirtualFree returns. The list changes even if it returns
    // false.
    method SplitRegion(base: nat, size: nat, released: bool) returns (ok: bool)
      requires Words(placeholders) && base < U64 && size < U64
      modifies this
      ensures ok == (Found(old(placeholders), base, size) && released)
      ensures Words(placeholders) && SplitTo(old(placeholders), placeholders, base, size)
      ensures old(Valid()) && base + size < U64 && size > 0 ==>
        && Valid() && (Found(old(placeholders), base, size) <==> RangeFree(old(placeholders), base, size))
        && if RangeFree(old(placeholders), base, size) then
          taken == old(taken) + [Placeholder(base, size)] && TakenOut(old(placeholders), placeholders, base, size)
        else
          taken == old(taken) && placeholders == old(placeholders)
    {
      ghost var free := placeholders;
      var position := Find(base, size);
      if position == |placeholders| {
        if Valid() && base + size < U64 && size > 0 {
          SearchIsExact(free, taken, space, base, size);
        }
        return false;
      }
      var original := placeholders[position];
      assert original in free;
      placeholders := placeholders[..position] + placeholders[position + 1..];
      if original.base == base {
        if size != original.extent {
          var newExtent := Sub(original.extent, size);
          var newBase := Wrap(base + size);
          placeholders := placeholders + [Placeholder(newBase, newExtent)];
        }
      } else if Wrap(original.base + original.extent) == Wrap(base + size) {
        var newBase := original.base;
        var newExtent := base - newBase;
        placeholders := placeholders + [Placeholder(newBase, newExtent)];
      } else {
        var baseLeft := original.base;
        var extentLeft := base - baseLeft;
        var baseRight := Wrap(base + size);
        var extentRight := Sub(Wrap(original.base + original.extent), baseRight);
        placeholders := placeholders + [Placeholder(baseLeft, extentLeft)];
        placeholders := placeholders + [Placeholder(baseRight, extentRight)];
      }
      assert placeholders == Erase(free, position) + Remains(original, base, size);
      SplitAtFirst(free, placeholders, base, size, position);
      if old(Valid()) && base + size < U64 && size > 0 {
        SearchIsExact(free, taken, space, base, size);
        SplitTakesOut(free, taken, space, base, size, placeholders);
        taken := taken + [Placeholder(base, size)];
      }
      return released;
    }
  }
}
