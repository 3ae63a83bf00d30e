/**
 What undo guarantees once an undo has discarded redo records: exactly when the next undo
 still undoes its edit, and that an undo that does so never restores a wrong text.
 */
module UndoDiscards {
  import opened Sequences
  import opened UndoModel
  import opened UndoTheorems

  // ------------------------------------------------------------------------ making room

  // What the d oldest redo records claim.
  function ClaimedByOldest(claims: seq<nat>, d: nat): nat
    requires d <= |claims|
  {
    if d == 0 then 0 else claims[|claims| - 1] + ClaimedByOldest(claims[..|claims| - 1], d - 1)
  }

  function Total(claims: seq<nat>): nat {
    ClaimedByOldest(claims, |claims|)
  }

  // Discarding the d oldest redo records, and no fewer, makes room.
  ghost predicate FirstFit(claims: seq<nat>, rcp: int, need: nat, d: nat)
    requires d <= |claims|
  {
    need <= rcp + ClaimedByOldest(claims, d) && forall i :: 0 <= i < d ==> rcp + ClaimedByOldest(claims, i) < need
  }

  // The loop ends at the first fit, and has stayed within the array exactly when redo_char_point
  // is then within it; without a fit no redo record is left.
  lemma {:induction false} MakeRoomAtFirstFit(claims: seq<nat>, rcp: int, need: nat, d: nat)
    requires need <= CHAR_COUNT && d <= |claims| && FirstFit(claims, rcp, need, d)
    ensures var r := rcp + ClaimedByOldest(claims, d);
      MakeRoom(claims, rcp, need) == if r <= CHAR_COUNT then Found(claims[..|claims| - d], r) else Overrun
    decreases d
  {
    if d > 0 {
      assert rcp + ClaimedByOldest(claims, 0) < need;
      var last, rest := claims[|claims| - 1], claims[..|claims| - 1];
      forall i | 0 <= i < d - 1
        ensures rcp + last + ClaimedByOldest(rest, i) < need
      {
        assert rcp + ClaimedByOldest(claims, i + 1) < need;
      }
      MakeRoomAtFirstFit(rest, rcp + last, need, d - 1);
      assert rest[..|rest| - (d - 1)] == claims[..|claims| - d];
    } else {
      assert claims[..|claims|] == claims;
    }
  }

  lemma {:induction false} MakeRoomExhausts(claims: seq<nat>, rcp: int, need: nat)
    requires need <= CHAR_COUNT
    ensures MakeRoom(claims, rcp, need).Exhausted? <==> rcp + Total(claims) < need
    ensures rcp + Total(claims) < need ==> MakeRoom(claims, rcp, need) == Exhausted(rcp + Total(claims))
    decreases |claims|
  {
    if rcp < need && claims != [] {
      MakeRoomExhausts(claims[..|claims| - 1], rcp + claims[|claims| - 1], need);
    }
  }

  lemma {:induction false} FirstFitExists(claims: seq<nat>, rcp: int, need: nat) returns (d: nat)
    requires need <= rcp + Total(claims)
    ensures d <= |claims| && FirstFit(claims, rcp, need, d)
    decreases |claims|
  {
    if need <= rcp {
      return 0;
    }
    var last, rest := claims[|claims| - 1], claims[..|claims| - 1];
    var d' := FirstFitExists(rest, rcp + last, need);
    d := d' + 1;
    forall i | 0 <= i < d
      ensures rcp + ClaimedByOldest(claims, i) < need
    {
      if i > 0 {
        assert rcp + last + ClaimedByOldest(rest, i - 1) < need;
      }
    }
  }

  ghost predicate FitsWithin(claims: seq<nat>, rcp: int, need: nat, d: nat) {
    d <= |claims| && FirstFit(claims, rcp, need, d) && rcp + ClaimedByOldest(claims, d) <= CHAR_COUNT
  }

  // An undo undoes its edit exactly when it saves no characters or there is a first fit
  // within the array; it is stuck exactly when all that is claimed is not enough.
  lemma UndoneIffFits(l: Loose)
    requires l.undo != [] && Applicable(l.text, Last(l.undo))
    ensures var n := Last(l.undo).added;
      var need := Size(l.undo) + n;
      && (UndoOnce(l).0.Done? <==> n == 0 || need >= CHAR_COUNT || exists d :: FitsWithin(l.claims, l.rcp, need, d))
      && (UndoOnce(l).0.Stuck? <==> n > 0 && need < CHAR_COUNT && l.rcp + Total(l.claims) < need)
  {
    var n := Last(l.undo).added;
    var need := Size(l.undo) + n;
    if n > 0 && need < CHAR_COUNT {
      MakeRoomExhausts(l.claims, l.rcp, need);
      forall d | FitsWithin(l.claims, l.rcp, need, d)
        ensures MakeRoom(l.claims, l.rcp, need).Found?
      {
        MakeRoomAtFirstFit(l.claims, l.rcp, need, d);
      }
      if MakeRoom(l.claims, l.rcp, need).Found? {
        var d := FirstFitExists(l.claims, l.rcp, need);
        MakeRoomAtFirstFit(l.claims, l.rcp, need, d);
        assert FitsWithin(l.claims, l.rcp, need, d);
      }
    }
  }

  lemma {:induction false} MakeRoomFound(claims: seq<nat>, rcp: int, need: nat)
    requires need <= CHAR_COUNT
    ensures var m := MakeRoom(claims, rcp, need);
      m.Found? ==>
      && |m.claims| <= |claims| && need <= m.rcp <= CHAR_COUNT && m.claims == claims[..|m.claims|]
      && m.rcp + Total(m.claims) == rcp + Total(claims)
      && (|m.claims| == |claims| <==> need <= rcp)
    decreases |claims|
  {
    if need <= rcp {
      assert claims[..|claims|] == claims;
    } else if claims != [] {
      MakeRoomFound(claims[..|claims| - 1], rcp + claims[|claims| - 1], need);
    }
  }

  lemma {:induction false} TotalCons(n: nat, claims: seq<nat>)
    ensures Total([n] + claims) == n + Total(claims)
    decreases |claims|
  {
    var all := [n] + claims;
    if claims == [] {
      assert all == [n] && all[..0] == [];
      assert ClaimedByOldest(all[..0], 0) == 0;
    } else {
      TotalCons(n, claims[..|claims| - 1]);
      assert all[..|all| - 1] == [n] + claims[..|claims| - 1];
    }
  }

  lemma {:induction false} TotalLengths(es: seq<Edit>)
    ensures Total(Lengths(es)) == Size(es)
    decreases |es|
  {
    if es != [] {
      TotalLengths(Init(es));
      SizeSplit(es);
      assert Lengths(es)[..|es| - 1] == Lengths(Init(es));
    }
  }

  lemma LengthsCons(e: Edit, es: seq<Edit>)
    ensures Lengths([e] + es) == [|e.removed|] + Lengths(es)
  {
  }

  // -------------------------------------------------------- undo in the states edits leave

  lemma {:induction false} KeptRedoMakesRoom(redo: seq<Edit>, u: nat, n: nat)
    requires u + n < CHAR_COUNT
    ensures var kept := KeptRedo(redo, u, n);
      MakeRoom(Lengths(redo), CHAR_COUNT - Size(redo), u + n) == Found(Lengths(kept), CHAR_COUNT - Size(kept))
    decreases |redo|
  {
    if u + n > CHAR_COUNT - Size(redo) {
      SizeSplit(redo);
      KeptRedoMakesRoom(Init(redo), u, n);
      assert Lengths(redo)[..|redo| - 1] == Lengths(Init(redo));
    }
  }

  lemma KeepingUndoIsLoose(s: State)
    requires s.undo != [] && Applicable(s.text, Last(s.undo)) && !MustDiscard(s)
    ensures UndoOnce(LooseOf(s)) == (Done, LooseOf(AfterUndo(s)))
  {
    var back := AfterUndo(s).redo[0];
    LengthsCons(back, s.redo);
    SizeSplit([back] + s.redo);
    assert ([back] + s.redo)[1..] == s.redo;
  }

  lemma DiscardingUndoIsLoose(s: State)
    requires s.undo != [] && Applicable(s.text, Last(s.undo)) && MustDiscard(s)
    ensures UndoOnce(LooseOf(s)) == (Done, LooseOfDiscarded(AfterDiscardingUndo(s)))
  {
    KeptRedoMakesRoom(s.redo, Size(s.undo), Last(s.undo).added);
    KeptRedoIsShorter(s.redo, Size(s.undo), Last(s.undo).added);
  }

  // In a coherent state the machine takes the step of the values: it always undoes, and what
  // it leaves is coherent again unless it had to discard.
  lemma UndoIsLoose(s: State)
    requires s.undo != [] && Applicable(s.text, Last(s.undo))
    ensures UndoOnce(LooseOf(s)) ==
      (Done, if MustDiscard(s) then LooseOfDiscarded(AfterDiscardingUndo(s)) else LooseOf(AfterUndo(s)))
  {
    if MustDiscard(s) {
      DiscardingUndoIsLoose(s);
    } else {
      KeepingUndoIsLoose(s);
    }
  }

  lemma RedoIsLoose(s: State)
    requires s.redo != [] && Applicable(s.text, s.redo[0])
    ensures RedoneBy(LooseOf(s), s.redo[0], LooseOf(AfterRedo(s)))
  {
    SizeSplit(s.redo);
    assert Lengths(s.redo)[1..] == Lengths(s.redo[1..]);
  }

  // What the next undo comes to after one that discarded, from lengths alone: n characters
  // undone by the first, c claimed by the record it left stale, `need` the undo characters
  // and those the second is to save.
  function AfterStale(n: nat, c: nat, added: nat, need: nat): Outcome {
    if added == 0 || need >= CHAR_COUNT || need <= CHAR_COUNT - n then Done
    else if c > n then Undefined
    else if need <= CHAR_COUNT - n + c then Done
    else Stuck
  }

  lemma UndoAfterDiscarding(s: State)
    requires s.undo != [] && Applicable(s.text, Last(s.undo)) && MustDiscard(s)
    requires var d := AfterDiscardingUndo(s); d.undo != [] && Applicable(d.text, Last(d.undo))
    ensures var d := AfterDiscardingUndo(s);
      var e := Last(d.undo);
      UndoOnce(LooseOfDiscarded(d)).0
      == AfterStale(Last(s.undo).added, |s.redo[0].removed|, e.added, Size(d.undo) + e.added)
  {
    var d := AfterDiscardingUndo(s);
    var l := LooseOfDiscarded(d);
    var n, c, e := Last(s.undo).added, |s.redo[0].removed|, Last(d.undo);
    var need := Size(d.undo) + e.added;
    if e.added > 0 && need < CHAR_COUNT {
      TotalLengths(d.redo);
      TotalCons(c, Lengths(d.redo));
      StaleGoesLast(c, Lengths(d.redo), l.rcp, need);
    }
  }

  // The stale record is discarded last.
  lemma {:induction false} StaleGoesLast(c: nat, claims: seq<nat>, rcp: int, need: nat)
    requires need < CHAR_COUNT
    ensures var m := MakeRoom([c] + claims, rcp, need);
      var r := rcp + Total(claims);
      r <= CHAR_COUNT ==>
        if need <= r then m.Found?
        else if r + c > CHAR_COUNT then m.Overrun?
        else if need <= r + c then m.Found?
        else m.Exhausted?
    decreases |claims|
  {
    var all := [c] + claims;
    if claims == [] {
      assert all[..0] == [] && all[0] == c;
    } else if need > rcp {
      assert all[..|all| - 1] == [c] + claims[..|claims| - 1];
      StaleGoesLast(c, claims[..|claims| - 1], rcp + claims[|claims| - 1], need);
    } else {
    }
  }

  // ------------------------------------------------------------------------ over whole runs

  // The redo characters add up: then an undo always finds room.
  predicate Tight(l: Loose) {
    l.rcp + Total(l.claims) == CHAR_COUNT
  }

  // What every operation keeps: once the redo characters no longer add up, a slot between the
  // stacks is free, so that a redo record written in vain overwrites no undo record.
  predicate Sound(l: Loose) {
    && |l.undo| + |l.claims| <= STATE_COUNT && Size(l.undo) <= CHAR_COUNT && Size(l.undo) <= l.rcp
    && (Tight(l) || |l.undo| + |l.claims| < STATE_COUNT)
  }

  lemma TightUndoes(l: Loose)
    requires Tight(l) && l.undo != [] && Applicable(l.text, Last(l.undo))
    ensures UndoOnce(l).0.Done?
  {
    var need := Size(l.undo) + Last(l.undo).added;
    if Last(l.undo).added > 0 && need < CHAR_COUNT {
      var d := FirstFitExists(l.claims, l.rcp, need);
      ClaimedGrows(l.claims, d, |l.claims|);
      MakeRoomAtFirstFit(l.claims, l.rcp, need, d);
    }
  }

  // Every claim adds room.
  lemma {:induction false} ClaimedGrows(claims: seq<nat>, i: nat, j: nat)
    requires i <= j <= |claims|
    ensures ClaimedByOldest(claims, i) <= ClaimedByOldest(claims, j)
  {
    if i > 0 {
      ClaimedGrows(claims[..|claims| - 1], i - 1, j - 1);
    }
  }

  lemma CoherentIsSound(s: State)
    requires Bounded(s)
    ensures Sound(LooseOf(s)) && Tight(LooseOf(s))
  {
    TotalLengths(s.redo);
  }

  lemma UndoStaysSound(l: Loose)
    requires Sound(l)
    ensures !UndoOnce(l).0.Undefined? ==> Sound(UndoOnce(l).1)
    ensures UndoOnce(l).0.Stuck? ==> |l.undo| + |l.claims| < STATE_COUNT
  {
    if l.undo != [] {
      var e := Last(l.undo);
      SizeSplit(l.undo);
      TotalCons(0, l.claims);
      if e.added > 0 && Size(l.undo) + e.added < CHAR_COUNT {
        var m := MakeRoom(l.claims, l.rcp, Size(l.undo) + e.added);
        MakeRoomFound(l.claims, l.rcp, Size(l.undo) + e.added);
        MakeRoomExhausts(l.claims, l.rcp, Size(l.undo) + e.added);
        if m.Found? {
          TotalCons(e.added, m.claims);
        } else {
          ClaimedGrows(l.claims, 0, |l.claims|);
          assert Total([]) == 0;
        }
      }
    }
  }

  lemma RedoStaysSound(l: Loose, r: Edit)
    requires Sound(l) && l.claims != [] && |r.removed| == l.claims[0] && Applicable(l.text, r)
    requires NoRoomBelow(l, r) || Size(l.undo) + r.added <= CHAR_COUNT
    ensures Sound(AfterLooseRedo(l, r))
  {
    var back := if NoRoomBelow(l, r) then Edit(r.where, [], 0) else Inverse(l.text, r);
    StoredSnoc(l.undo, back);
    TotalCons(l.claims[0], l.claims[1..]);
    assert l.claims == [l.claims[0]] + l.claims[1..];
  }

  // r is what a redo is found to insert and delete.
  datatype LooseOp = Change(e: Edit) | TakeBack | BringBack(r: Edit)

  ghost predicate Allowed(l: Loose, op: LooseOp) {
    match op
    case Change(e) => Applicable(l.text, e)
    case TakeBack => !UndoOnce(l).0.Undefined?
    case BringBack(r) =>
      l.claims != [] && |r.removed| == l.claims[0] && Applicable(l.text, r)
      && !NoRoomBelow(l, r) && Size(l.undo) + r.added <= CHAR_COUNT
  }

  ghost function Next(l: Loose, op: LooseOp): Loose
    requires Allowed(l, op)
  {
    match op
    case Change(e) => Loose(Apply(l.text, e), Recorded(l.undo, Inverse(l.text, e)), [], CHAR_COUNT)
    case TakeBack => UndoOnce(l).1
    case BringBack(r) => AfterLooseRedo(l, r)
  }

  // The texts the undo records lead back to after the step: an edit keeps the most recent
  // ones, an undo that does its work goes back to the last one, any other leaves them.
  ghost function PastAfter(l: Loose, past: seq<Text>, op: LooseOp): seq<Text>
    requires Allowed(l, op) && Leads(l, past)
  {
    match op
    case Change(e) =>
      EditKeepsPast(l.text, l.undo, past, e);
      Suffix(past + [l.text], |Next(l, op).undo|)
    case TakeBack => if UndoOnce(l).0.Done? then past[..|past| - 1] else past
    case BringBack(r) => past + [l.text]
  }

  ghost predicate Leads(l: Loose, past: seq<Text>) {
    Sound(l) && Past(l.text, l.undo, past)
  }

  // Whatever the redo records have come to, an undo gives back the very text the edit or redo
  // replaced, or leaves text and undo stack alone.
  lemma NextLeads(l: Loose, past: seq<Text>, op: LooseOp)
    requires Leads(l, past) && Allowed(l, op)
    ensures Leads(Next(l, op), PastAfter(l, past, op))
    ensures op.TakeBack? ==>
      if UndoOnce(l).0.Done? then past != [] && Next(l, op).text == past[|past| - 1]
      else Next(l, op).text == l.text && Next(l, op).undo == l.undo
  {
    match op
    case Change(e) =>
      EditKeepsPast(l.text, l.undo, past, e);
      RecordedFits(l.undo, Inverse(l.text, e));
    case TakeBack =>
      UndoStaysSound(l);
    case BringBack(r) =>
      RedoStaysSound(l, r);
      InverseUndoes(l.text, r);
      PastSnoc(l.text, l.undo, past, Apply(l.text, r), Inverse(l.text, r));
  }

  ghost predicate Run(ops: seq<LooseOp>, states: seq<Loose>, pasts: seq<seq<Text>>) {
    && |states| == |pasts| == |ops| + 1 && Leads(states[0], pasts[0])
    && forall i :: 0 <= i < |ops| ==> RunStep(ops, states, pasts, i)
  }

  ghost predicate RunStep(ops: seq<LooseOp>, states: seq<Loose>, pasts: seq<seq<Text>>, i: nat)
    requires i < |ops| && |states| == |pasts| == |ops| + 1
  {
    Leads(states[i], pasts[i]) ==>
      Allowed(states[i], ops[i]) && states[i + 1] == Next(states[i], ops[i])
      && pasts[i + 1] == PastAfter(states[i], pasts[i], ops[i])
  }

  lemma {:induction false} RunLeads(ops: seq<LooseOp>, states: seq<Loose>, pasts: seq<seq<Text>>, k: nat)
    requires Run(ops, states, pasts) && k <= |ops|
    ensures Leads(states[k], pasts[k])
  {
    if k > 0 {
      RunLeads(ops, states, pasts, k - 1);
      assert RunStep(ops, states, pasts, k - 1);
      NextLeads(states[k - 1], pasts[k - 1], ops[k - 1]);
    }
  }

  // ------------------------------------------------------------------------ undos in a row

  // k undos in a row undo their edits.
  ghost predicate Undoes(l: Loose, k: nat)
    decreases k
  {
    k == 0 || (UndoOnce(l).0.Done? && Undoes(UndoOnce(l).1, k - 1))
  }

  ghost function UndoTimes(l: Loose, k: nat): Loose
    requires Undoes(l, k)
    decreases k
  {
    if k == 0 then l else UndoTimes(UndoOnce(l).1, k - 1)
  }

  lemma UndoLeadsBack(l: Loose, past: seq<Text>)
    requires Past(l.text, l.undo, past) && UndoOnce(l).0.Done?
    ensures past != []
    ensures var l' := UndoOnce(l).1;
      l'.text == past[|past| - 1] && Past(l'.text, l'.undo, past[..|past| - 1])
  {
  }

  lemma {:induction false} UndosGoBack(l: Loose, past: seq<Text>, k: nat)
    requires Past(l.text, l.undo, past) && Undoes(l, k)
    ensures k <= |past| && UndoTimes(l, k).text == if k == 0 then l.text else past[|past| - k]
    decreases k
  {
    if k > 0 {
      UndoLeadsBack(l, past);
      var front := past[..|past| - 1];
      UndosGoBack(UndoOnce(l).1, front, k - 1);
      assert k > 1 ==> front[|front| - (k - 1)] == past[|past| - k];
    }
  }

  // Undos that keep everything are undos that undo.
  lemma {:induction false} CanUndoUndoes(s: State, k: nat)
    requires CanUndo(s, k)
    ensures Undoes(LooseOf(s), k) && UndoTimes(LooseOf(s), k) == LooseOf(Undone(s, k))
    decreases k
  {
    if k > 0 {
      UndoIsLoose(s);
      CanUndoUndoes(AfterUndo(s), k - 1);
    }
  }

  lemma UndosThroughSuffix(l: Loose, texts: seq<Text>, k: nat)
    requires |l.undo| <= |texts| && Past(l.text, l.undo, Suffix(texts, |l.undo|)) && Undoes(l, k)
    ensures k <= |texts| && UndoTimes(l, k).text == (texts + [l.text])[|texts| - k]
  {
    UndosGoBack(l, Suffix(texts, |l.undo|), k);
    if k > 0 {
      SuffixAt(texts, |l.undo|, k);
    }
  }

  // After any run of edits, k undos that undo give the text before the last k edits, whether
  // or not redo records had to be discarded on the way (k may reach into `past`).
  lemma {:induction false} UndoRestoresText(s: State, past: seq<Text>, edits: seq<Edit>, k: nat)
    requires EditsApply(s.text, edits) && Past(s.text, s.undo, past)
    ensures |Seen(s.text, edits)| == |edits|
    ensures var s' := AfterEdits(s, edits);
      var texts := past + Seen(s.text, edits);
      && (Undoes(LooseOf(s'), k) ==>
        k <= |texts| && UndoTimes(LooseOf(s'), k).text == (texts + [s'.text])[|texts| - k])
      && (CanUndo(s', k) ==>
        k <= |texts| && Undone(s', k).text == (texts + [s'.text])[|texts| - k])
  {
    EditsLeavePast(s, past, edits);
    var s' := AfterEdits(s, edits);
    if CanUndo(s', k) {
      CanUndoUndoes(s', k);
    }
    if Undoes(LooseOf(s'), k) {
      UndosThroughSuffix(LooseOf(s'), past + Seen(s.text, edits), k);
    }
  }

  // ------------------------------------------------------------- three insertions are enough

  function Insertions(t1: Text, t2: Text, t3: Text): seq<Edit> {
    [Edit(0, t1, 0), Edit(0, t2, 0), Edit(0, t3, 0)]
  }

  // The undo records of insertions store no characters.
  lemma InsertionRecorded(s: State, t: Text)
    requires |s.undo| < STATE_COUNT && Size(s.undo) == 0
    ensures AfterEdit(s, Edit(0, t, 0)) == State(t + s.text, s.undo + [Edit(0, [], |t|)], [])
    ensures Size(s.undo + [Edit(0, [], |t|)]) == 0
  {
    StoredSnoc(s.undo, Edit(0, [], |t|));
    assert s.text[..0] + t + s.text[0..] == t + s.text;
    assert s.text[0..0] == [];
  }

  lemma AfterInsertions(t1: Text, t2: Text, t3: Text)
    ensures EditsApply([], Insertions(t1, t2, t3))
    ensures AfterEdits(State([], [], []), Insertions(t1, t2, t3)) ==
      State(t3 + (t2 + t1), [Edit(0, [], |t1|), Edit(0, [], |t2|), Edit(0, [], |t3|)], [])
  {
    var all := Insertions(t1, t2, t3);
    var s0 := State([], [], []);
    var s1 := State(t1, [Edit(0, [], |t1|)], []);
    var s2 := State(t2 + t1, [Edit(0, [], |t1|), Edit(0, [], |t2|)], []);
    InsertionRecorded(s0, t1);
    assert AfterEdit(s0, all[0]) == s1 by { assert t1 + [] == t1; }
    InsertionRecorded(s1, t2);
    assert AfterEdit(s1, all[1]) == s2;
    InsertionRecorded(s2, t3);
    assert all[1..][0] == all[1] && all[1..][1..] == [all[2]] && [all[2]][1..] == [];
    assert EditsApply(AfterEdit(s2, all[2]).text, []);
    assert EditsApply(s2.text, all[1..][1..]);
    assert EditsApply(s1.text, all[1..]);
    assert AfterEdits(s2, [all[2]]) == AfterEdits(AfterEdit(s2, all[2]), []);
  }

  lemma FirstUndo(t1: Text, t2: Text, t3: Text)
    requires |t3| < CHAR_COUNT
    ensures var e1, e2, e3 := Edit(0, [], |t1|), Edit(0, [], |t2|), Edit(0, [], |t3|);
      UndoOnce(LooseOf(State(t3 + (t2 + t1), [e1, e2, e3], [])))
      == (Done, LooseOf(State(t2 + t1, [e1, e2], [Edit(0, t3, 0)])))
  {
    var e1, e2, e3 := Edit(0, [], |t1|), Edit(0, [], |t2|), Edit(0, [], |t3|);
    var s := State(t3 + (t2 + t1), [e1, e2, e3], []);
    SizeSplit([e1, e2, e3]);
    SizeSplit([e2, e3]);
    SizeSplit([e3]);
    assert [e1, e2, e3][1..] == [e2, e3] && [e2, e3][1..] == [e3];
    UndoIsLoose(s);
    assert Apply(s.text, e3) == t2 + t1;
    assert Init(s.undo) == [e1, e2];
    assert Inverse(s.text, e3) == Edit(0, t3, 0);
    assert !RedoTextLost(s) && !MustDiscard(s);
    assert AfterUndo(s) == State(t2 + t1, [e1, e2], [Edit(0, t3, 0)]);
  }

  // The second undo has to discard, whatever the third finds.
  lemma SecondUndo(t1: Text, t2: Text, t3: Text)
    requires 0 < |t2| < CHAR_COUNT && |t2| + |t3| > CHAR_COUNT
    ensures var e1, e2 := Edit(0, [], |t1|), Edit(0, [], |t2|);
      var (o, l) := UndoOnce(LooseOf(State(t2 + t1, [e1, e2], [Edit(0, t3, 0)])));
      o == Done && l.undo == [e1] && UndoOnce(l).0 == AfterStale(|t2|, |t3|, |t1|, |t1|)
  {
    var e1, e2 := Edit(0, [], |t1|), Edit(0, [], |t2|);
    var s := State(t2 + t1, [e1, e2], [Edit(0, t3, 0)]);
    SizeSplit([e1, e2]);
    SizeSplit([e1]);
    SizeSplit(s.redo);
    assert Init(s.undo) == [e1] && Init([e1]) == [];
    assert MustDiscard(s);
    UndoIsLoose(s);
    assert Apply(s.text, e2) == t1;
    UndoAfterDiscarding(s);
  }

  lemma TwoUndos(l: Loose, l1: Loose, l2: Loose)
    requires UndoOnce(l) == (Done, l1) && UndoOnce(l1) == (Done, l2)
    ensures Undoes(l, 2) && UndoTimes(l, 2) == l2
  {
    assert Undoes(l2, 0) && Undoes(l1, 1);
    assert UndoTimes(l1, 1) == UndoTimes(l2, 0);
  }

  // When the last two insertions cannot both be stored for redo, the second undo leaves a
  // stale record and the third undo, of the first insertion, comes to what the lengths say.
  lemma ThirdUndo(t1: Text, t2: Text, t3: Text)
    requires 0 < |t2| < CHAR_COUNT && |t3| < CHAR_COUNT && |t2| + |t3| > CHAR_COUNT
    ensures EditsApply([], Insertions(t1, t2, t3))
    ensures var l := LooseOf(AfterEdits(State([], [], []), Insertions(t1, t2, t3)));
      && Undoes(l, 2) && UndoTimes(l, 2).undo == [Edit(0, [], |t1|)]
      && UndoOnce(UndoTimes(l, 2)).0 == AfterStale(|t2|, |t3|, |t1|, |t1|)
  {
    AfterInsertions(t1, t2, t3);
    FirstUndo(t1, t2, t3);
    SecondUndo(t1, t2, t3);
    var l := LooseOf(AfterEdits(State([], [], []), Insertions(t1, t2, t3)));
    TwoUndos(l, UndoOnce(l).1, UndoOnce(UndoOnce(l).1).1);
  }

  // The exit that should never be taken, and the memmove with a negative count.
  lemma ThirdUndoCanFail(t1: Text, t2: Text, t3: Text)
    requires (|t1| == 900 && |t2| == 700 && |t3| == 400) || (|t1| == 600 && |t2| == 500 && |t3| == 600)
    ensures EditsApply([], Insertions(t1, t2, t3))
    ensures var l := LooseOf(AfterEdits(State([], [], []), Insertions(t1, t2, t3)));
      Undoes(l, 2) && UndoOnce(UndoTimes(l, 2)).0 == if |t1| == 900 then Stuck else Undefined
  {
    ThirdUndo(t1, t2, t3);
  }
}
