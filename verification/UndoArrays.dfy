/**
 The two arrays of the text editor's undo section, one of records and one of characters, each
 shared by two stacks that grow towards each other: what they hold, and the moves within them.
 */
module UndoArrays {
  import opened UndoModel
  import opened UndoTheorems

  datatype UndoRec = UndoRec(where: int, insertLength: int, deleteLength: int, charStorage: int)

  // The record of edit e with its characters stored at `at`.
  ghost function RecordOf(e: Edit, at: int): UndoRec {
    UndoRec(e.where, |e.removed|, e.added, if e.removed == [] then -1 else at)
  }

  // Record from + i describes edit i; the characters of the edits lie end to end from base.
  ghost predicate TileAt(recs: seq<UndoRec>, from: nat, es: seq<Edit>, base: int, i: nat)
    requires i < |es| && from + i < |recs|
  {
    recs[from + i] == RecordOf(es[i], base + Size(es[..i]))
  }

  ghost predicate Tiles(recs: seq<UndoRec>, from: nat, es: seq<Edit>, base: int) {
    from + |es| <= |recs| && forall i :: 0 <= i < |es| ==> TileAt(recs, from, es, base, i)
  }

  ghost predicate CharAt(chars: seq<int>, from: nat, t: Text, k: nat)
    requires k < |t| && from + k < |chars|
  {
    chars[from + k] == t[k]
  }

  ghost predicate Holds(chars: seq<int>, from: nat, t: Text) {
    from + |t| <= |chars| && forall k :: 0 <= k < |t| ==> CharAt(chars, from, t, k)
  }

  // The undo stack: up records in front, ucp characters in front.
  ghost predicate UndoPart(recs: seq<UndoRec>, chars: seq<int>, up: int, ucp: int, log: seq<Edit>) {
    && up == |log| && ucp == Size(log)
    && Tiles(recs, 0, log, 0) && Holds(chars, 0, Stored(log))
  }

  // The redo stack: the records from rp on, the characters from rcp on.
  ghost predicate RedoPart(recs: seq<UndoRec>, chars: seq<int>, rp: int, rcp: int, log: seq<Edit>) {
    && 0 <= rp && rp + |log| == |recs| && 0 <= rcp && rcp + Size(log) == |chars|
    && Tiles(recs, rp, log, rcp) && Holds(chars, rcp, Stored(log))
  }

  // A record on the redo stack; without characters it claims none.
  ghost predicate Slot(r: UndoRec) {
    0 <= r.where && 0 <= r.insertLength && 0 <= r.deleteLength && (r.charStorage < 0 ==> r.insertLength == 0)
  }

  ghost predicate ClaimAt(recs: seq<UndoRec>, rp: nat, claims: seq<nat>, i: nat)
    requires i < |claims| && rp + i < |recs|
  {
    Slot(recs[rp + i]) && recs[rp + i].insertLength == claims[i]
  }

  // The redo stack by what its records claim, wherever their characters are.
  ghost predicate ClaimsPart(recs: seq<UndoRec>, rp: int, claims: seq<nat>) {
    0 <= rp && rp + |claims| == |recs| && forall i :: 0 <= i < |claims| ==> ClaimAt(recs, rp, claims, i)
  }

  // A stale record on top of the redo stack, its characters below those of the others.
  ghost predicate StalePart(recs: seq<UndoRec>, chars: seq<int>, rp: int, rcp: int, st: StaleRec, redo: seq<Edit>) {
    && 0 <= rp < |recs| && 0 <= rcp
    && recs[rp] == UndoRec(st.where, st.claimed, st.added, rcp)
    && Holds(chars, rcp, st.stored)
    && RedoPart(recs, chars, rp + 1, rcp + |st.stored|, redo)
  }

  // ------------------------------------------------------------------ writes to the arrays

  ghost predicate SameAt<T>(s: seq<T>, r: seq<T>, i: nat)
    requires i < |r| == |s|
  {
    r[i] == s[i]
  }

  // r is as s from lo up to hi.
  ghost predicate Same<T>(s: seq<T>, r: seq<T>, lo: int, hi: int) {
    |r| == |s| && forall i :: 0 <= i < |r| && lo <= i < hi ==> SameAt(s, r, i)
  }

  lemma SameWithin<T>(s: seq<T>, r: seq<T>, lo: int, hi: int, lo': int, hi': int)
    requires Same(s, r, lo, hi) && lo <= lo' && hi' <= hi
    ensures Same(s, r, lo', hi')
  {
  }

  lemma SameTwice<T>(s: seq<T>, r: seq<T>, t: seq<T>, lo: int, hi: int)
    requires Same(s, r, lo, hi) && Same(r, t, lo, hi)
    ensures Same(s, t, lo, hi)
  {
    forall i | 0 <= i < |t| && lo <= i < hi
      ensures SameAt(s, t, i)
    {
      assert SameAt(s, r, i) && SameAt(r, t, i);
    }
  }

  lemma SameBeside<T>(s: seq<T>, r: seq<T>, at: nat)
    requires at < |s| == |r| && r == s[at := r[at]]
    ensures Same(s, r, 0, at) && Same(s, r, at + 1, |s|)
  {
    forall i | 0 <= i < |r| && i != at
      ensures SameAt(s, r, i)
    {
    }
  }

  ghost predicate MovedAt<T>(s: seq<T>, r: seq<T>, dst: nat, src: nat, n: nat, k: nat)
    requires dst + n <= |s| && src + n <= |s| && k < |r| == |s|
  {
    r[k] == if dst <= k < dst + n then s[src + (k - dst)] else s[k]
  }

  // r is s after memmove of n elements from src to dst within it.
  ghost predicate Moved<T>(s: seq<T>, r: seq<T>, dst: nat, src: nat, n: nat)
    requires dst + n <= |s| && src + n <= |s|
  {
    |r| == |s| && forall k :: 0 <= k < |r| ==> MovedAt(s, r, dst, src, n, k)
  }

  method Memmove<T>(a: array<T>, dst: nat, src: nat, n: nat)
    requires dst + n <= a.Length && src + n <= a.Length
    modifies a
    ensures Moved(old(a[..]), a[..], dst, src, n)
  {
    forall k | dst <= k < dst + n {
      a[k] := a[src + (k - dst)];
    }
  }

  function Shifted(r: UndoRec, n: int): UndoRec {
    if r.charStorage >= 0 then r.(charStorage := r.charStorage + n) else r
  }

  ghost predicate ShiftedAt(s: seq<UndoRec>, r: seq<UndoRec>, lo: nat, hi: nat, n: int, i: nat)
    requires i < |r| == |s|
  {
    r[i] == if lo <= i < hi then Shifted(s[i], n) else s[i]
  }

  ghost predicate ShiftedIn(s: seq<UndoRec>, r: seq<UndoRec>, lo: nat, hi: nat, n: int) {
    |r| == |s| && forall i :: 0 <= i < |r| ==> ShiftedAt(s, r, lo, hi, n, i)
  }

  lemma ShiftedOneMore(s: seq<UndoRec>, r: seq<UndoRec>, lo: nat, i: nat, n: int)
    requires ShiftedIn(s, r, lo, i, n) && lo <= i < |r|
    ensures ShiftedIn(s, r[i := Shifted(r[i], n)], lo, i + 1, n)
  {
    var r', hi := r[i := Shifted(r[i], n)], i + 1;
    forall k | 0 <= k < |r'|
      ensures ShiftedAt(s, r', lo, hi, n, k)
    {
      assert ShiftedAt(s, r, lo, i, n, k);
    }
  }

  // Nothing else changes.
  lemma MovedElsewhere<T>(s: seq<T>, r: seq<T>, dst: nat, src: nat, n: nat)
    requires dst + n <= |s| && src + n <= |s| && Moved(s, r, dst, src, n)
    ensures Same(s, r, 0, dst) && Same(s, r, dst + n, |s|)
  {
    forall k | 0 <= k < |r| && !(dst <= k < dst + n)
      ensures SameAt(s, r, k)
    {
      assert MovedAt(s, r, dst, src, n, k);
    }
  }

  lemma ShiftedElsewhere(s: seq<UndoRec>, r: seq<UndoRec>, lo: nat, hi: nat, n: int)
    requires ShiftedIn(s, r, lo, hi, n)
    ensures Same(s, r, 0, lo) && Same(s, r, hi, |s|)
  {
    forall i | 0 <= i < |r| && !(lo <= i < hi)
      ensures SameAt(s, r, i)
    {
      assert ShiftedAt(s, r, lo, hi, n, i);
    }
  }

  lemma MovedNowhere<T>(s: seq<T>, at: nat, n: nat)
    requires at + n <= |s|
    ensures Moved(s, s, at, at, n)
  {
    forall k | 0 <= k < |s|
      ensures MovedAt(s, s, at, at, n, k)
    {
    }
  }

  lemma ShiftedByNone(s: seq<UndoRec>, lo: nat, hi: nat)
    ensures ShiftedIn(s, s, lo, hi, 0)
  {
    forall i | 0 <= i < |s|
      ensures ShiftedAt(s, s, lo, hi, 0, i)
    {
    }
  }

  // The loops of both discards that follow the memmove of the characters.
  method ShiftStorage(rec: array<UndoRec>, lo: nat, hi: nat, n: int)
    requires lo <= hi <= rec.Length
    modifies rec
    ensures ShiftedIn(old(rec[..]), rec[..], lo, hi, n)
  {
    for i := lo to hi
      invariant ShiftedIn(old(rec[..]), rec[..], lo, i, n)
    {
      ShiftedOneMore(old(rec[..]), rec[..], lo, i, n);
      rec[i] := Shifted(rec[i], n);
    }
  }

  // r is s with t written over it from `at` on.
  ghost predicate Written(s: seq<int>, r: seq<int>, at: nat, t: Text) {
    at + |t| <= |s| == |r|
    && forall k {:trigger r[k]} :: 0 <= k < |r| ==> r[k] == if at <= k < at + |t| then t[k - at] else s[k]
  }

  // The loops that save n characters of the text before they are deleted.
  method SaveChars(chars: array<int>, at: nat, text: Text, where: nat, n: nat)
    requires at + n <= chars.Length && where + n <= |text|
    modifies chars
    ensures Written(old(chars[..]), chars[..], at, text[where..where + n])
  {
    for i := 0 to n
      invariant Written(old(chars[..]), chars[..], at, text[where..where + i])
    {
      chars[at + i] := text[where + i];
    }
  }

  lemma WrittenElsewhere(s: seq<int>, r: seq<int>, at: nat, t: Text)
    requires Written(s, r, at, t)
    ensures Same(s, r, 0, at) && Same(s, r, at + |t|, |s|)
  {
    forall k | 0 <= k < |r| && !(at <= k < at + |t|)
      ensures SameAt(s, r, k)
    {
    }
  }

  lemma WrittenHolds(s: seq<int>, r: seq<int>, at: nat, t: Text)
    requires Written(s, r, at, t)
    ensures Holds(r, at, t)
  {
    forall k | 0 <= k < |t|
      ensures CharAt(r, at, t, k)
    {
      assert r[at + k] == t[k];
    }
  }

  // ------------------------------------------------------------------- what they amount to

  lemma SizePrefix(es: seq<Edit>, i: nat)
    requires i < |es|
    ensures Size(es[..i + 1]) == Size(es[..i]) + |es[i].removed|
    ensures Size(es[1..][..i]) == Size(es[..i + 1]) - |es[0].removed|
  {
    assert es[..i + 1] == es[..i] + [es[i]];
    StoredSnoc(es[..i], es[i]);
    assert es[..i + 1] == [es[0]] + es[1..][..i];
    StoredConcat([es[0]], es[1..][..i]);
    assert Stored([es[0]]) == es[0].removed + Stored([]);
  }

  lemma SizePrefixCons(e: Edit, es: seq<Edit>, i: nat)
    requires i <= |es|
    ensures Size(([e] + es)[..i + 1]) == |e.removed| + Size(es[..i])
  {
    assert ([e] + es)[..i + 1] == [e] + es[..i];
    StoredConcat([e], es[..i]);
    assert Stored([e]) == e.removed + Stored([]);
  }

  // Where, and how much is deleted and inserted, as for edit e.
  ghost predicate ReadsAs(r: UndoRec, e: Edit) {
    r.where == e.where && r.insertLength == |e.removed| && r.deleteLength == e.added
  }

  // stb_textedit_discard_undo: the oldest record and its n characters go, the rest slides
  // down.
  lemma UndoDropsFirst(recs: seq<UndoRec>, chars: seq<int>, log: seq<Edit>,
                       mid: seq<UndoRec>, recs': seq<UndoRec>, chars': seq<int>)
    requires UndoPart(recs, chars, |log|, Size(log), log) && log != [] && |log[0].removed| <= Size(log)
    requires ShiftedIn(recs, mid, 0, |log|, -|log[0].removed|) && Moved(mid, recs', 0, 1, |log| - 1)
    requires Moved(chars, chars', 0, |log[0].removed|, Size(log) - |log[0].removed|)
    ensures UndoPart(recs', chars', |log| - 1, Size(log) - |log[0].removed|, log[1..])
  {
    SizeSplit(log);
    var n := |log[0].removed|;
    forall i | 0 <= i < |log[1..]|
      ensures TileAt(recs', 0, log[1..], 0, i)
    {
      assert TileAt(recs, 0, log, 0, i + 1);
      assert MovedAt(mid, recs', 0, 1, |log| - 1, i) && ShiftedAt(recs, mid, 0, |log|, -n, i + 1);
      SizePrefix(log, i);
    }
    var kept := Stored(log[1..]);
    forall k | 0 <= k < |kept|
      ensures CharAt(chars', 0, kept, k)
    {
      assert CharAt(chars, 0, Stored(log), n + k);
      assert MovedAt(chars, chars', 0, n, Size(log) - n, k);
    }
  }

  lemma UndoDropKeepsRedo(recs: seq<UndoRec>, chars: seq<int>, up: nat, ucp: nat, n: nat,
                          rp: nat, rcp: nat, redo: seq<Edit>,
                          mid: seq<UndoRec>, recs': seq<UndoRec>, chars': seq<int>)
    requires RedoPart(recs, chars, rp, rcp, redo) && 1 <= up <= rp && n <= ucp <= rcp
    requires ShiftedIn(recs, mid, 0, up, -(n as int)) && Moved(mid, recs', 0, 1, up - 1)
    requires Moved(chars, chars', 0, n, ucp - n)
    ensures RedoPart(recs', chars', rp, rcp, redo)
  {
    ShiftedElsewhere(recs, mid, 0, up, -(n as int));
    MovedElsewhere(mid, recs', 0, 1, up - 1);
    MovedElsewhere(chars, chars', 0, n, ucp - n);
    SameWithin(recs, mid, up, |recs|, rp, |recs|);
    SameWithin(mid, recs', up - 1, |recs|, rp, |recs|);
    SameTwice(recs, mid, recs', rp, |recs|);
    SameWithin(chars, chars', ucp - n, |chars|, rcp, |chars|);
    RedoPartKept(recs, chars, recs', chars', rp, rcp, redo);
  }

  ghost predicate SlidAt(recs: seq<UndoRec>, recs': seq<UndoRec>, rp: nat, n: nat, i: nat)
    requires rp < |recs| == |recs'| && i < |recs|
  {
    recs'[i] ==
      if i < rp || i == rp == |recs| - 1 then recs[i]
      else if i == rp then Shifted(recs[i], n)
      else Shifted(recs[i - 1], n)
  }

  // The arrays after stb_textedit_discard_redo has dropped n characters: those from rcp on and
  // the records from rp on have slid up, and the slot at rp has kept its record.
  ghost predicate SlidUp(recs: seq<UndoRec>, chars: seq<int>, recs': seq<UndoRec>, chars': seq<int>,
                         rp: nat, rcp: nat, n: nat)
    requires rp < |recs|
  {
    && |recs'| == |recs| && (forall i :: 0 <= i < |recs| ==> SlidAt(recs, recs', rp, n, i))
    && (if rcp + n <= |chars| then Moved(chars, chars', rcp + n, rcp, |chars| - rcp - n) else chars' == chars)
  }

  lemma SlidByMoves(recs: seq<UndoRec>, mid: seq<UndoRec>, recs': seq<UndoRec>, rp: nat, n: nat)
    requires rp < |recs| && ShiftedIn(recs, mid, rp, |recs| - 1, n) && Moved(mid, recs', rp + 1, rp, |recs| - rp - 1)
    ensures forall i :: 0 <= i < |recs| ==> SlidAt(recs, recs', rp, n, i)
  {
    forall i | 0 <= i < |recs|
      ensures SlidAt(recs, recs', rp, n, i)
    {
      assert MovedAt(mid, recs', rp + 1, rp, |recs| - rp - 1, i);
      assert rp < i ==> ShiftedAt(recs, mid, rp, |recs| - 1, n, i - 1);
      assert ShiftedAt(recs, mid, rp, |recs| - 1, n, i);
    }
  }

  // stb_textedit_discard_redo: the oldest redo record and its characters go, the rest slides
  // up.
  lemma RedoDropsLast(recs: seq<UndoRec>, chars: seq<int>, rp: nat, rcp: nat, log: seq<Edit>,
                      recs': seq<UndoRec>, chars': seq<int>)
    requires RedoPart(recs, chars, rp, rcp, log) && log != []
    requires rcp + |Last(log).removed| <= |chars|
    requires SlidUp(recs, chars, recs', chars', rp, rcp, |Last(log).removed|)
    ensures RedoPart(recs', chars', rp + 1, rcp + |Last(log).removed|, Init(log))
  {
    SizeSplit(log);
    var n := |Last(log).removed|;
    var base := rcp + n;
    var rp' := rp + 1;
    forall i | 0 <= i < |Init(log)|
      ensures TileAt(recs', rp', Init(log), base, i)
    {
      assert TileAt(recs, rp, log, rcp, i);
      assert SlidAt(recs, recs', rp, n, rp' + i);
      assert Init(log)[..i] == log[..i];
    }
    var kept := Stored(Init(log));
    forall k | 0 <= k < |kept|
      ensures CharAt(chars', base, kept, k)
    {
      assert CharAt(chars, rcp, Stored(log), k);
      assert MovedAt(chars, chars', base, rcp, |chars| - base, base + k);
    }
  }

  lemma ClaimsDropLast(recs: seq<UndoRec>, chars: seq<int>, rp: nat, rcp: nat, claims: seq<nat>,
                       recs': seq<UndoRec>, chars': seq<int>, n: nat)
    requires ClaimsPart(recs, rp, claims) && claims != []
    requires SlidUp(recs, chars, recs', chars', rp, rcp, n)
    ensures ClaimsPart(recs', rp + 1, claims[..|claims| - 1])
  {
    var kept, rp' := claims[..|claims| - 1], rp + 1;
    forall i | 0 <= i < |kept|
      ensures ClaimAt(recs', rp', kept, i)
    {
      assert ClaimAt(recs, rp, claims, i);
      assert SlidAt(recs, recs', rp, n, rp' + i);
    }
  }

  ghost predicate InPlace(recs: seq<UndoRec>, chars: seq<int>, rp: int, rcp: int, log: seq<Edit>, claims: seq<nat>) {
    RedoPart(recs, chars, rp, rcp, log) && claims == Lengths(log)
  }

  lemma InPlaceWithin(recs: seq<UndoRec>, chars: seq<int>, rp: nat, rcp: nat, log: seq<Edit>, claims: seq<nat>)
    requires rp < |recs|
    ensures InPlace(recs, chars, rp, rcp, log, claims) ==>
      log != [] && |claims| == |log| && rcp + claims[|claims| - 1] <= |chars|
  {
    if log != [] {
      SizeSplit(log);
    }
  }

  lemma LastDiscarded(recs: seq<UndoRec>, chars: seq<int>, rp: nat, rcp: nat, log: seq<Edit>, claims: seq<nat>,
                      recs': seq<UndoRec>, chars': seq<int>)
    requires ClaimsPart(recs, rp, claims) && rp < |recs|
    requires SlidUp(recs, chars, recs', chars', rp, rcp, claims[|claims| - 1])
    ensures ClaimsPart(recs', rp + 1, claims[..|claims| - 1])
    ensures InPlace(recs, chars, rp, rcp, log, claims) ==>
      log != [] && InPlace(recs', chars', rp + 1, rcp + claims[|claims| - 1], Init(log), claims[..|claims| - 1])
  {
    ClaimsDropLast(recs, chars, rp, rcp, claims, recs', chars', claims[|claims| - 1]);
    if InPlace(recs, chars, rp, rcp, log, claims) {
      InPlaceWithin(recs, chars, rp, rcp, log, claims);
      RedoDropsLast(recs, chars, rp, rcp, log, recs', chars');
      assert Lengths(log)[..|log| - 1] == Lengths(Init(log));
    }
  }

  ghost predicate SameLengths(r: UndoRec, s: UndoRec) {
    r.where == s.where && r.insertLength == s.insertLength && r.deleteLength == s.deleteLength
  }

  // What discarding redo records does to the records, from rp0 up to rp: the slot below the
  // stack, unless nothing was discarded, and the next record both read as the one that was next.
  ghost predicate Discarding(recs0: seq<UndoRec>, recs: seq<UndoRec>, rp0: nat, rp: nat) {
    && rp0 <= rp <= |recs| && Same(recs0, recs, 0, rp0)
    && (rp0 < rp ==> SameLengths(recs[rp - 1], recs0[rp0]))
    && (rp < |recs| ==> SameLengths(recs[rp], recs0[rp0]))
  }

  lemma DiscardsOne(recs0: seq<UndoRec>, recs: seq<UndoRec>, chars: seq<int>, rp0: nat, rp: nat, rcp: nat, n: nat,
                    recs': seq<UndoRec>, chars': seq<int>)
    requires Discarding(recs0, recs, rp0, rp) && rp < |recs|
    requires SlidUp(recs, chars, recs', chars', rp, rcp, n)
    ensures Discarding(recs0, recs', rp0, rp + 1) && Same(chars, chars', 0, rcp)
  {
    assert rcp + n > |chars| ==> Same(chars, chars', 0, rcp);
    if rcp + n <= |chars| {
      MovedElsewhere(chars, chars', rcp + n, rcp, |chars| - rcp - n);
      SameWithin(chars, chars', 0, rcp + n, 0, rcp);
    }
    assert SlidAt(recs, recs', rp, n, rp);
    assert rp + 1 < |recs| ==> SlidAt(recs, recs', rp, n, rp + 1);
    forall i | 0 <= i < rp0
      ensures SameAt(recs0, recs', i)
    {
      assert SameAt(recs0, recs, i) && SlidAt(recs, recs', rp, n, i);
    }
  }

  // The claims of a redo stack whose characters are all in place.
  lemma RedoPartClaims(recs: seq<UndoRec>, chars: seq<int>, rp: nat, rcp: nat, log: seq<Edit>)
    requires RedoPart(recs, chars, rp, rcp, log)
    ensures ClaimsPart(recs, rp, Lengths(log))
  {
    forall i | 0 <= i < |log|
      ensures ClaimAt(recs, rp, Lengths(log), i)
    {
      assert TileAt(recs, rp, log, rcp, i);
    }
  }

  lemma ClaimsPartKept(recs: seq<UndoRec>, recs': seq<UndoRec>, rp: nat, claims: seq<nat>)
    requires ClaimsPart(recs, rp, claims) && Same(recs, recs', rp, |recs|)
    ensures ClaimsPart(recs', rp, claims)
  {
    forall i | 0 <= i < |claims|
      ensures ClaimAt(recs', rp, claims, i)
    {
      assert ClaimAt(recs, rp, claims, i) && SameAt(recs, recs', rp + i);
    }
  }

  // A record written into the slot below the redo stack.
  lemma PushClaim(recs: seq<UndoRec>, rp: nat, claims: seq<nat>, r: UndoRec)
    requires ClaimsPart(recs, rp, claims) && 1 <= rp && Slot(r)
    ensures ClaimsPart(recs[rp - 1 := r], rp - 1, [r.insertLength] + claims)
  {
    var recs', rp', claims' := recs[rp - 1 := r], rp - 1, [r.insertLength] + claims;
    forall i | 0 <= i < |claims'|
      ensures ClaimAt(recs', rp', claims', i)
    {
      if i > 0 {
        assert ClaimAt(recs, rp, claims, i - 1);
      }
    }
  }

  lemma PopClaim(recs: seq<UndoRec>, rp: nat, claims: seq<nat>)
    requires ClaimsPart(recs, rp, claims) && claims != []
    ensures Slot(recs[rp]) && recs[rp].insertLength == claims[0]
    ensures ClaimsPart(recs, rp + 1, claims[1..])
  {
    var rest, rp' := claims[1..], rp + 1;
    assert ClaimAt(recs, rp, claims, 0);
    forall i | 0 <= i < |rest|
      ensures ClaimAt(recs, rp', rest, i)
    {
      assert ClaimAt(recs, rp, claims, i + 1);
    }
  }

  // What differs below rp and rcp only leaves the redo stack alone.
  lemma RedoPartKept(recs: seq<UndoRec>, chars: seq<int>, recs': seq<UndoRec>, chars': seq<int>,
                     rp: nat, rcp: nat, log: seq<Edit>)
    requires RedoPart(recs, chars, rp, rcp, log)
    requires Same(recs, recs', rp, |recs|) && Same(chars, chars', rcp, |chars|)
    ensures RedoPart(recs', chars', rp, rcp, log)
  {
    forall i | 0 <= i < |log|
      ensures TileAt(recs', rp, log, rcp, i)
    {
      assert TileAt(recs, rp, log, rcp, i) && SameAt(recs, recs', rp + i);
    }
    forall k | 0 <= k < Size(log)
      ensures CharAt(chars', rcp, Stored(log), k)
    {
      assert CharAt(chars, rcp, Stored(log), k) && SameAt(chars, chars', rcp + k);
    }
  }

  // What differs from the tops on only leaves the undo stack alone.
  lemma UndoPartKept(recs: seq<UndoRec>, chars: seq<int>, recs': seq<UndoRec>, chars': seq<int>, log: seq<Edit>)
    requires UndoPart(recs, chars, |log|, Size(log), log)
    requires Same(recs, recs', 0, |log|) && Same(chars, chars', 0, Size(log))
    ensures UndoPart(recs', chars', |log|, Size(log), log)
  {
    forall i | 0 <= i < |log|
      ensures TileAt(recs', 0, log, 0, i)
    {
      assert TileAt(recs, 0, log, 0, i) && SameAt(recs, recs', i);
    }
    forall k | 0 <= k < Size(log)
      ensures CharAt(chars', 0, Stored(log), k)
    {
      assert CharAt(chars, 0, Stored(log), k) && SameAt(chars, chars', k);
    }
  }

  lemma SameSlice(s: seq<int>, s': seq<int>, at: nat, t: Text)
    requires at + |t| <= |s| && s[at..at + |t|] == t && Same(s, s', at, at + |t|)
    ensures s'[at..at + |t|] == t
  {
    forall k | 0 <= k < |t|
      ensures s'[at + k] == t[k]
    {
      assert SameAt(s, s', at + k) && s[at + k] == s[at..at + |t|][k];
    }
  }

  // A new undo record and its characters on top of the stack.
  lemma UndoGains(recs: seq<UndoRec>, chars: seq<int>, log: seq<Edit>, e: Edit)
    requires UndoPart(recs, chars, |log|, Size(log), log)
    requires |log| < |recs| && Size(log) + |e.removed| <= |chars|
    requires recs[|log|] == RecordOf(e, Size(log))
    requires Holds(chars, Size(log), e.removed)
    ensures UndoPart(recs, chars, |log| + 1, Size(log) + |e.removed|, log + [e])
  {
    var log' := log + [e];
    StoredSnoc(log, e);
    forall i | 0 <= i < |log'|
      ensures TileAt(recs, 0, log', 0, i)
    {
      if i < |log| {
        assert TileAt(recs, 0, log, 0, i) && log'[..i] == log[..i];
      } else {
        assert log'[..i] == log;
      }
    }
    var all := Stored(log');
    forall k | 0 <= k < |all|
      ensures CharAt(chars, 0, all, k)
    {
      if k < Size(log) {
        assert CharAt(chars, 0, Stored(log), k);
      } else {
        assert CharAt(chars, Size(log), e.removed, k - Size(log));
      }
    }
  }

  lemma StackUndo(recs: seq<UndoRec>, chars: seq<int>, log: seq<Edit>, e: Edit, recs': seq<UndoRec>, chars': seq<int>)
    requires UndoPart(recs, chars, |log|, Size(log), log)
    requires |log| < |recs| && Size(log) + |e.removed| <= |chars|
    requires recs' == recs[|log| := RecordOf(e, Size(log))]
    requires Written(chars, chars', Size(log), e.removed)
    ensures UndoPart(recs', chars', |log| + 1, Size(log) + |e.removed|, log + [e])
  {
    SameBeside(recs, recs', |log|);
    WrittenElsewhere(chars, chars', Size(log), e.removed);
    UndoPartKept(recs, chars, recs', chars', log);
    WrittenHolds(chars, chars', Size(log), e.removed);
    UndoGains(recs', chars', log, e);
  }

  // A new redo record and its characters on top of the stack.
  lemma RedoGains(recs: seq<UndoRec>, chars: seq<int>, rp: nat, rcp: nat, log: seq<Edit>, e: Edit)
    requires RedoPart(recs, chars, rp, rcp, log)
    requires 1 <= rp && |e.removed| <= rcp
    requires recs[rp - 1] == RecordOf(e, rcp - |e.removed|)
    requires Holds(chars, rcp - |e.removed|, e.removed)
    ensures RedoPart(recs, chars, rp - 1, rcp - |e.removed|, [e] + log)
  {
    var log', rp', rcp' := [e] + log, rp - 1, rcp - |e.removed|;
    assert log'[1..] == log;
    forall i | 0 <= i < |log'|
      ensures TileAt(recs, rp', log', rcp', i)
    {
      if i > 0 {
        assert TileAt(recs, rp, log, rcp, i - 1);
        SizePrefixCons(e, log, i - 1);
      }
    }
    var all := Stored(log');
    forall k | 0 <= k < |all|
      ensures CharAt(chars, rcp', all, k)
    {
      if k < |e.removed| {
        assert CharAt(chars, rcp', e.removed, k);
      } else {
        assert CharAt(chars, rcp, Stored(log), k - |e.removed|);
      }
    }
  }

  lemma StackRedo(recs: seq<UndoRec>, chars: seq<int>, rp: nat, rcp: nat, log: seq<Edit>, e: Edit,
                  recs': seq<UndoRec>, chars': seq<int>)
    requires RedoPart(recs, chars, rp, rcp, log)
    requires 1 <= rp && |e.removed| <= rcp
    requires recs' == recs[rp - 1 := RecordOf(e, rcp - |e.removed|)]
    requires Written(chars, chars', rcp - |e.removed|, e.removed)
    ensures RedoPart(recs', chars', rp - 1, rcp - |e.removed|, [e] + log)
  {
    SameBeside(recs, recs', rp - 1);
    WrittenElsewhere(chars, chars', rcp - |e.removed|, e.removed);
    RedoPartKept(recs, chars, recs', chars', rp, rcp, log);
    WrittenHolds(chars, chars', rcp - |e.removed|, e.removed);
    RedoGains(recs', chars', rp, rcp, log, e);
  }

  lemma StackInPlace(recs: seq<UndoRec>, chars: seq<int>, rp: nat, rcp: nat, log: seq<Edit>, claims: seq<nat>, e: Edit,
                     recs': seq<UndoRec>, chars': seq<int>)
    requires InPlace(recs, chars, rp, rcp, log, claims)
    requires 1 <= rp && |e.removed| <= rcp
    requires recs' == recs[rp - 1 := RecordOf(e, rcp - |e.removed|)]
    requires Written(chars, chars', rcp - |e.removed|, e.removed)
    ensures InPlace(recs', chars', rp - 1, rcp - |e.removed|, [e] + log, [|e.removed|] + claims)
  {
    StackRedo(recs, chars, rp, rcp, log, e, recs', chars');
    assert Lengths([e] + log) == [|e.removed|] + Lengths(log);
  }

  // The slot below the stack after discards claims what the record claimed that was next.
  lemma SlotClaims(recs0: seq<UndoRec>, rp0: nat, claims0: seq<nat>, recs: seq<UndoRec>, rp: nat)
    requires ClaimsPart(recs0, rp0, claims0) && Discarding(recs0, recs, rp0, rp)
    ensures rp0 < rp ==>
      && claims0 != [] && recs[rp - 1].insertLength == claims0[0]
      && 0 <= recs[rp - 1].where && 0 <= recs[rp - 1].deleteLength
  {
    if rp0 < rp {
      assert ClaimAt(recs0, rp0, claims0, 0);
    }
  }

  // The slot below the stack after discards reads as the record that was next.
  lemma SlotReadsAsNext(recs0: seq<UndoRec>, chars0: seq<int>, rp0: nat, rcp0: nat, log0: seq<Edit>,
                        recs: seq<UndoRec>, rp: nat)
    requires RedoPart(recs0, chars0, rp0, rcp0, log0) && Discarding(recs0, recs, rp0, rp) && rp0 < rp
    ensures log0 != [] && ReadsAs(recs[rp - 1], log0[0])
  {
    assert TileAt(recs0, rp0, log0, rcp0, 0);
  }

  // A stale record and its characters on top of the stack.
  lemma StackStale(recs: seq<UndoRec>, chars: seq<int>, rp: nat, rcp: nat, redo: seq<Edit>, st: StaleRec,
                   recs': seq<UndoRec>, chars': seq<int>)
    requires RedoPart(recs, chars, rp, rcp, redo)
    requires 1 <= rp && |st.stored| <= rcp
    requires recs' == recs[rp - 1 := UndoRec(st.where, st.claimed, st.added, rcp - |st.stored|)]
    requires Written(chars, chars', rcp - |st.stored|, st.stored)
    ensures StalePart(recs', chars', rp - 1, rcp - |st.stored|, st, redo)
  {
    SameBeside(recs, recs', rp - 1);
    WrittenElsewhere(chars, chars', rcp - |st.stored|, st.stored);
    RedoPartKept(recs, chars, recs', chars', rp, rcp, redo);
    WrittenHolds(chars, chars', rcp - |st.stored|, st.stored);
  }

  // The redo stack after an undo has put the characters `saved` of record u on top of it, u
  // undo characters below: a record of its own or, when others were discarded, the stale one.
  ghost predicate SavedOnTop(recs: seq<UndoRec>, chars: seq<int>, rp: int, rcp: int, log: seq<Edit>, claims: seq<nat>,
                             back: Edit, ucp: nat, rcp0: int, log0: seq<Edit>)
    requires ucp + |back.removed| < CHAR_COUNT
  {
    if ucp + |back.removed| <= rcp0 then
      log == [back] + log0 && InPlace(recs, chars, rp, rcp, log, claims)
    else
      && log0 != [] && log == KeptRedo(log0, ucp, |back.removed|)
      && StalePart(recs, chars, rp, rcp, StaleOf(log0[0], back.removed), log)
  }

  // The same for any undo: without characters to save, or when they can never be, the record
  // stacked stores none.
  ghost predicate Topped(recs: seq<UndoRec>, chars: seq<int>, rp: int, rcp: int, log: seq<Edit>, claims: seq<nat>,
                         back: Edit, ucp: nat, rcp0: int, log0: seq<Edit>) {
    if back.removed == [] || ucp + |back.removed| >= CHAR_COUNT then
      log == [back.(removed := [])] + log0 && InPlace(recs, chars, rp, rcp, log, claims)
    else
      SavedOnTop(recs, chars, rp, rcp, log, claims, back, ucp, rcp0, log0)
  }

  // Writing the slot below the stack leaves the stack alone.
  lemma KeepBelow(recs: seq<UndoRec>, chars: seq<int>, rp: nat, rcp: nat, log: seq<Edit>, claims: seq<nat>,
                  recs': seq<UndoRec>)
    requires ClaimsPart(recs, rp, claims) && 1 <= rp && |recs'| == |recs| && recs' == recs[rp - 1 := recs'[rp - 1]]
    ensures ClaimsPart(recs', rp, claims)
    ensures InPlace(recs, chars, rp, rcp, log, claims) ==> InPlace(recs', chars, rp, rcp, log, claims)
  {
    SameBeside(recs, recs', rp - 1);
    ClaimsPartKept(recs, recs', rp, claims);
    if InPlace(recs, chars, rp, rcp, log, claims) {
      RedoPartKept(recs, chars, recs', chars, rp, rcp, log);
    }
  }

  // What the stale record finds from redo_char_point on: the characters just saved, then those
  // of the records kept.
  lemma StaleFinds(recs: seq<UndoRec>, chars: seq<int>, rp: int, rcp: int, st: StaleRec, redo: seq<Edit>)
    requires StalePart(recs, chars, rp, rcp, st, redo)
    ensures chars[rcp..] == st.stored + Stored(redo)
  {
    var n := |st.stored|;
    forall k | 0 <= k < |chars| - rcp
      ensures chars[rcp + k] == (st.stored + Stored(redo))[k]
    {
      if k < n {
        assert CharAt(chars, rcp, st.stored, k);
      } else {
        assert CharAt(chars, rcp + n, Stored(redo), k - n);
      }
    }
  }

  // What is on top of the redo stack after an undo is what the values say.
  lemma ToppedIsAfterUndo(s: State, recs: seq<UndoRec>, chars: seq<int>, rp: int, rcp: int,
                          log: seq<Edit>, claims: seq<nat>)
    requires s.undo != [] && Applicable(s.text, Last(s.undo))
    requires Topped(recs, chars, rp, rcp, log, claims,
                    Inverse(s.text, Last(s.undo)), Size(s.undo), CHAR_COUNT - Size(s.redo), s.redo)
    ensures MustDiscard(s) ==>
      StalePart(recs, chars, rp, rcp, AfterDiscardingUndo(s).stale, AfterDiscardingUndo(s).redo)
    ensures !MustDiscard(s) ==> log == AfterUndo(s).redo && InPlace(recs, chars, rp, rcp, log, claims)
  {
  }

  // A record without characters on top of the stack.
  lemma StackBare(recs: seq<UndoRec>, chars: seq<int>, rp: nat, rcp: nat, log: seq<Edit>, claims: seq<nat>, e: Edit,
                  recs': seq<UndoRec>)
    requires ClaimsPart(recs, rp, claims) && 1 <= rp && e.removed == []
    requires recs' == recs[rp - 1 := UndoRec(e.where, 0, e.added, -1)]
    ensures ClaimsPart(recs', rp - 1, [0] + claims)
    ensures InPlace(recs, chars, rp, rcp, log, claims) ==>
      InPlace(recs', chars, rp - 1, rcp, [e] + log, [0] + claims)
  {
    PushClaim(recs, rp, claims, UndoRec(e.where, 0, e.added, -1));
    if InPlace(recs, chars, rp, rcp, log, claims) {
      StackInPlace(recs, chars, rp, rcp, log, claims, e, recs', chars);
    }
  }

  // From (recs0, rp0, rcp0, log0) redo records were discarded to make room for the characters
  // of `back`, or none, and the slot below the stack is still the one written first.
  ghost predicate RoomMade(recs0: seq<UndoRec>, rp0: nat, rcp0: int, log0: seq<Edit>,
                           recs: seq<UndoRec>, rp: nat, rcp: int, log: seq<Edit>, back: Edit, ucp: nat)
    requires ucp + |back.removed| < CHAR_COUNT && 1 <= rp <= |recs|
  {
    if ucp + |back.removed| <= rcp0 then
      log == log0 && rcp == rcp0 && recs[rp - 1] == UndoRec(back.where, |back.removed|, back.added, -1)
    else
      rp0 < rp && Discarding(recs0, recs, rp0, rp) && log == KeptRedo(log0, ucp, |back.removed|)
  }

  lemma SaveOnTop(recs0: seq<UndoRec>, chars0: seq<int>, rp0: nat, rcp0: nat, log0: seq<Edit>,
                  recs: seq<UndoRec>, chars: seq<int>, rp: nat, rcp: nat, log: seq<Edit>, claims: seq<nat>,
                  back: Edit, ucp: nat, recs': seq<UndoRec>, chars': seq<int>) returns (log': seq<Edit>)
    requires RedoPart(recs0, chars0, rp0, rcp0, log0) && InPlace(recs, chars, rp, rcp, log, claims)
    requires 1 <= rp <= |recs| && 0 <= recs[rp - 1].insertLength
    requires back.removed != [] && ucp + |back.removed| <= rcp && ucp + |back.removed| < CHAR_COUNT
    requires RoomMade(recs0, rp0, rcp0, log0, recs, rp, rcp, log, back, ucp)
    requires recs' == recs[rp - 1 := recs[rp - 1].(charStorage := rcp - |back.removed|)]
    requires Written(chars, chars', rcp - |back.removed|, back.removed)
    ensures SavedOnTop(recs', chars', rp - 1, rcp - |back.removed|, log', [recs[rp - 1].insertLength] + claims,
                       back, ucp, rcp0, log0)
  {
    if ucp + |back.removed| <= rcp0 {
      log' := [back] + log0;
      StackInPlace(recs, chars, rp, rcp, log, claims, back, recs', chars');
    } else {
      log' := log;
      SlotReadsAsNext(recs0, chars0, rp0, rcp0, log0, recs, rp);
      StackStale(recs, chars, rp, rcp, log, StaleOf(log0[0], back.removed), recs', chars');
    }
  }

  // The newest undo record as the machine reads it.
  lemma NewestUndo(recs: seq<UndoRec>, chars: seq<int>, log: seq<Edit>)
    requires UndoPart(recs, chars, |log|, Size(log), log) && log != []
    ensures var e := Last(log); var at := Size(log) - |e.removed|;
      && at == Size(Init(log)) && at + |e.removed| <= |chars|
      && recs[|log| - 1] == RecordOf(e, at)
      && chars[at..at + |e.removed|] == e.removed
    ensures UndoPart(recs, chars, |log| - 1, Size(Init(log)), Init(log))
  {
    SizeSplit(log);
    var e := Last(log);
    var at := Size(Init(log));
    assert TileAt(recs, 0, log, 0, |log| - 1);
    forall k | 0 <= k < |e.removed|
      ensures chars[at + k] == e.removed[k]
    {
      assert CharAt(chars, 0, Stored(log), at + k);
    }
    forall i | 0 <= i < |Init(log)|
      ensures TileAt(recs, 0, Init(log), 0, i)
    {
      assert TileAt(recs, 0, log, 0, i) && Init(log)[..i] == log[..i];
    }
    var kept := Stored(Init(log));
    forall k | 0 <= k < |kept|
      ensures CharAt(chars, 0, kept, k)
    {
      assert CharAt(chars, 0, Stored(log), k);
    }
  }

  // The next redo record as the machine reads it.
  lemma NextRedo(recs: seq<UndoRec>, chars: seq<int>, rp: nat, rcp: nat, log: seq<Edit>)
    requires RedoPart(recs, chars, rp, rcp, log) && log != []
    ensures var e := log[0];
      && rcp + |e.removed| <= |chars|
      && recs[rp] == RecordOf(e, rcp)
      && chars[rcp..rcp + |e.removed|] == e.removed
    ensures RedoPart(recs, chars, rp + 1, rcp + |log[0].removed|, log[1..])
  {
    SizeSplit(log);
    var e := log[0];
    assert TileAt(recs, rp, log, rcp, 0) && log[..0] == [];
    forall k | 0 <= k < |e.removed|
      ensures chars[rcp + k] == e.removed[k]
    {
      assert CharAt(chars, rcp, Stored(log), k);
    }
    var rest, rp', rcp' := log[1..], rp + 1, rcp + |e.removed|;
    forall i | 0 <= i < |rest|
      ensures TileAt(recs, rp', rest, rcp', i)
    {
      assert TileAt(recs, rp, log, rcp, i + 1);
      SizePrefix(log, i);
    }
    var kept := Stored(rest);
    forall k | 0 <= k < |kept|
      ensures CharAt(chars, rcp', kept, k)
    {
      assert CharAt(chars, rcp, Stored(log), |e.removed| + k);
    }
  }

  // The redo stack without its next record, once an undo record has been written below it.
  lemma NextTaken(recs: seq<UndoRec>, chars: seq<int>, rp: nat, rcp: nat, log: seq<Edit>, claims: seq<nat>,
                  recs': seq<UndoRec>, chars': seq<int>, up: nat)
    requires ClaimsPart(recs, rp, claims) && claims != [] && up <= rp
    requires |recs'| == |recs| && recs' == recs[up := recs'[up]]
    requires Same(chars, chars', rcp, |chars|)
    ensures ClaimsPart(recs', rp + 1, claims[1..])
    ensures InPlace(recs, chars, rp, rcp, log, claims) ==>
      && log != [] && claims[0] == |log[0].removed| && rcp + claims[0] <= |chars|
      && recs[rp] == RecordOf(log[0], rcp) && chars'[rcp..rcp + claims[0]] == log[0].removed
      && InPlace(recs', chars', rp + 1, rcp + claims[0], log[1..], claims[1..])
  {
    PopClaim(recs, rp, claims);
    SameBeside(recs, recs', up);
    SameWithin(recs, recs', up + 1, |recs|, rp + 1, |recs|);
    ClaimsPartKept(recs, recs', rp + 1, claims[1..]);
    if InPlace(recs, chars, rp, rcp, log, claims) {
      NextRedo(recs, chars, rp, rcp, log);
      SameWithin(chars, chars', rcp, |chars|, rcp + claims[0], |chars|);
      SameWithin(chars, chars', rcp, |chars|, rcp, rcp + claims[0]);
      RedoPartKept(recs, chars, recs', chars', rp + 1, rcp + claims[0], log[1..]);
      SameSlice(chars, chars', rcp, log[0].removed);
      assert Lengths(log)[1..] == Lengths(log[1..]);
    }
  }

  // The array work of stb_textedit_discard_undo; n is the number of characters dropped.
  method SlideDown(rec: array<UndoRec>, chars: array<int>, up: nat, ucp: nat, ghost log: seq<Edit>,
                   ghost rp: nat, ghost rcp: nat, ghost redo: seq<Edit>) returns (n: nat)
    requires UndoPart(rec[..], chars[..], up, ucp, log) && RedoPart(rec[..], chars[..], rp, rcp, redo)
    requires log != [] && up <= rp && ucp <= rcp
    modifies rec, chars
    ensures n == |log[0].removed| <= ucp
    ensures UndoPart(rec[..], chars[..], up - 1, ucp - n, log[1..]) && RedoPart(rec[..], chars[..], rp, rcp, redo)
  {
    ghost var recs, cs := rec[..], chars[..];
    SizeSplit(log);
    assert TileAt(recs, 0, log, 0, 0);
    n := 0;
    if rec[0].charStorage >= 0 {
      n := rec[0].insertLength;
      Memmove(chars, 0, n, ucp - n);
      ShiftStorage(rec, 0, up, -(n as int));
    } else {
      MovedNowhere(cs, 0, ucp);
      ShiftedByNone(recs, 0, up);
    }
    ghost var mid := rec[..];
    Memmove(rec, 0, 1, up - 1);
    UndoDropsFirst(recs, cs, log, mid, rec[..], chars[..]);
    UndoDropKeepsRedo(recs, cs, up, ucp, n, rp, rcp, redo, mid, rec[..], chars[..]);
  }

  // Discarding redo record r moves nothing past the end of the characters.
  predicate Discardable(r: UndoRec, rcp: int) {
    r.charStorage < 0 || rcp + r.insertLength <= CHAR_COUNT
  }

  // The array work of stb_textedit_discard_redo; n is the number of characters dropped. A
  // negative count for the memmove of the characters is undefined.
  method SlideUp(rec: array<UndoRec>, chars: array<int>, rp: nat, rcp: nat) returns (n: nat, defined: bool)
    requires rp < rec.Length && Slot(rec[rec.Length - 1]) && chars.Length == CHAR_COUNT
    modifies rec, chars
    ensures n == old(rec[rec.Length - 1].insertLength)
    ensures defined == Discardable(old(rec[rec.Length - 1]), rcp)
    ensures !defined ==> unchanged(rec, chars)
    ensures defined ==> SlidUp(old(rec[..]), old(chars[..]), rec[..], chars[..], rp, rcp, n)
  {
    var k := rec.Length - 1;
    ghost var recs := rec[..];
    n := rec[k].insertLength;
    if rec[k].charStorage >= 0 {
      if rcp + n > chars.Length {
        return n, false;
      }
      Memmove(chars, rcp + n, rcp, chars.Length - rcp - n);
      ShiftStorage(rec, rp, k, n);
    } else {
      if rcp <= chars.Length {
        MovedNowhere(chars[..], rcp, chars.Length - rcp);
      }
      ShiftedByNone(recs, rp, k);
    }
    ghost var mid := rec[..];
    Memmove(rec, rp + 1, rp, rec.Length - rp - 1);
    SlidByMoves(recs, mid, rec[..], rp, n);
    defined := true;
  }
}
