/**
 What undo and redo guarantee, for every state and every run.
 */
module UndoTheorems {
  import opened Sequences
  import opened UndoModel

  // What the arrays can hold.
  predicate Bounded(s: State) {
    |s.undo| + |s.redo| <= STATE_COUNT && Size(s.undo) + Size(s.redo) <= CHAR_COUNT
  }

  // Redoing the records one after another, starting with u undo characters, always finds
  // room, and undoing any of them again loses nothing.
  predicate RedoFits(u: nat, redo: seq<Edit>)
    decreases |redo|
  {
    redo != [] ==>
    && u + redo[0].added <= CHAR_COUNT - Size(redo)
    && (redo[0].removed != [] ==> u + redo[0].added + |redo[0].removed| < CHAR_COUNT)
    && RedoFits(u + redo[0].added, redo[1..])
  }

  // The guard a caller can check before an undo: nothing is dropped or discarded.
  predicate Keeps(s: State)
    requires s.undo != []
  {
    !RedoTextLost(s) && !MustDiscard(s)
  }

  predicate Coherent(s: State) {
    Bounded(s) && RedoFits(Size(s.undo), s.redo)
  }

  lemma SizeSplit(es: seq<Edit>)
    requires es != []
    ensures Size(es) == Size(Init(es)) + |Last(es).removed|
    ensures Size(es) == |es[0].removed| + Size(es[1..])
    ensures Stored(es) == Stored(Init(es)) + Last(es).removed
  {
    assert es == Init(es) + [Last(es)];
    StoredSnoc(Init(es), Last(es));
  }

  // ------------------------------------------------------------- coherence is invariant

  lemma UndoStaysCoherent(s: State)
    requires Coherent(s) && s.undo != [] && Applicable(s.text, Last(s.undo)) && !MustDiscard(s)
    ensures Coherent(AfterUndo(s))
  {
    var e := Last(s.undo);
    var back := Inverse(s.text, e);
    SizeSplit(s.undo);
    PushRedo(Size(Init(s.undo)), if RedoTextLost(s) then back.(removed := []) else back, s.redo);
  }

  lemma PushRedo(u: nat, r: Edit, redo: seq<Edit>)
    requires RedoFits(u + r.added, redo)
    requires u + r.added + |r.removed| + Size(redo) <= CHAR_COUNT
    requires r.removed != [] ==> u + r.added + |r.removed| < CHAR_COUNT
    ensures RedoFits(u, [r] + redo)
    ensures Size([r] + redo) == |r.removed| + Size(redo)
  {
    var all := [r] + redo;
    assert all[1..] == redo;
    SizeSplit(all);
  }

  lemma RedoStaysCoherent(s: State)
    requires Coherent(s) && s.redo != [] && Applicable(s.text, s.redo[0])
    ensures !NoRoomToRedo(s)
    ensures Coherent(AfterRedo(s))
  {
    SizeSplit(s.redo);
    StoredSnoc(s.undo, Inverse(s.text, s.redo[0]));
  }

  // The k newest records leave room for n more characters.
  ghost predicate FitsBeside(undo: seq<Edit>, k: nat, n: nat)
    requires k <= |undo|
  {
    Size(Suffix(undo, k)) + n <= 999
  }

  // The newest records stay, as many of them as leave room.
  lemma {:induction false} DropUntilRoomFits(undo: seq<Edit>, n: nat)
    requires n <= CHAR_COUNT
    ensures Size(DropUntilRoom(undo, n)) + n <= CHAR_COUNT
    ensures |DropUntilRoom(undo, n)| <= |undo|
    ensures DropUntilRoom(undo, n) == Suffix(undo, |DropUntilRoom(undo, n)|)
    ensures forall k :: |DropUntilRoom(undo, n)| < k <= |undo| ==> !FitsBeside(undo, k, n)
  {
    if Size(undo) + n > CHAR_COUNT {
      DropUntilRoomFits(undo[1..], n);
      SuffixOfTail(undo, |DropUntilRoom(undo, n)|);
      forall k | |DropUntilRoom(undo, n)| < k <= |undo|
        ensures !FitsBeside(undo, k, n)
      {
        if k < |undo| {
          SuffixOfTail(undo, k);
          assert !FitsBeside(undo[1..], k, n);
        } else {
          SuffixOfAll(undo);
        }
      }
    } else {
      SuffixOfAll(undo);
    }
  }

  lemma RecordedFits(undo: seq<Edit>, e: Edit)
    requires |undo| <= STATE_COUNT
    ensures |Recorded(undo, e)| <= STATE_COUNT && Size(Recorded(undo, e)) <= CHAR_COUNT
  {
    if |e.removed| <= CHAR_COUNT {
      var kept := if |undo| == STATE_COUNT then undo[1..] else undo;
      DropUntilRoomFits(kept, |e.removed|);
      StoredSnoc(DropUntilRoom(kept, |e.removed|), e);
    }
  }

  // A new record has made way for itself at the expense of the oldest ones only: the k newest
  // stay, and one more of them would not have fitted beside it.
  ghost predicate MostKept(undo: seq<Edit>, n: nat, k: nat) {
    && k <= |undo| && k < 99 && FitsBeside(undo, k, n)
    && forall j :: k < j <= |undo| && j < 99 ==> !FitsBeside(undo, j, n)
  }

  lemma RoomIsMostKept(undo: seq<Edit>, n: nat) returns (k: nat)
    requires n <= CHAR_COUNT && |undo| <= STATE_COUNT
    ensures MostKept(undo, n, k)
    ensures DropUntilRoom(if |undo| == STATE_COUNT then undo[1..] else undo, n) == Suffix(undo, k)
  {
    var kept := if |undo| == STATE_COUNT then undo[1..] else undo;
    DropUntilRoomFits(kept, n);
    k := |DropUntilRoom(kept, n)|;
    if |undo| == STATE_COUNT {
      SuffixOfTail(undo, k);
      forall j | k < j < STATE_COUNT
        ensures !FitsBeside(undo, j, n)
      {
        SuffixOfTail(undo, j);
        assert !FitsBeside(kept, j, n);
      }
    }
  }

  ghost predicate StaysMost(undo: seq<Edit>, n: nat, undo': seq<Edit>) {
    MostKept(undo, n, |undo'|) && undo' == Suffix(undo, |undo'|)
  }

  lemma RoomIsMost(undo: seq<Edit>, n: nat)
    requires n <= CHAR_COUNT && |undo| <= STATE_COUNT
    ensures StaysMost(undo, n, DropUntilRoom(if |undo| == STATE_COUNT then undo[1..] else undo, n))
  {
    var k := RoomIsMostKept(undo, n);
  }

  // A recorded edit costs oldest records only, and no more of them than it has to.
  lemma RecordedIsSuffix(undo: seq<Edit>, e: Edit) returns (n: nat)
    requires |e.removed| <= CHAR_COUNT
    ensures n <= |undo| && Recorded(undo, e) == Suffix(undo, n) + [e]
    ensures |undo| <= STATE_COUNT ==> MostKept(undo, |e.removed|, n)
  {
    if |undo| <= STATE_COUNT {
      n := RoomIsMostKept(undo, |e.removed|);
    } else {
      DropUntilRoomFits(undo, |e.removed|);
      n := |DropUntilRoom(undo, |e.removed|)|;
    }
  }

  lemma RecordedAsMost(undo: seq<Edit>, e: Edit)
    requires |undo| <= STATE_COUNT
    ensures if |e.removed| > CHAR_COUNT then Recorded(undo, e) == []
      else Recorded(undo, e) != [] && StackedOnMost(undo, e, Recorded(undo, e))
  {
    if |e.removed| <= CHAR_COUNT {
      var n := RecordedIsSuffix(undo, e);
      assert Recorded(undo, e)[..n] == Suffix(undo, n);
    }
  }

  // e on top of the most that could stay.
  ghost predicate StackedOnMost(undo: seq<Edit>, e: Edit, undo': seq<Edit>)
    requires undo' != []
  {
    Last(undo') == e && StaysMost(undo, |e.removed|, Init(undo'))
  }

  lemma EditStaysCoherent(s: State, e: Edit)
    requires |s.undo| <= STATE_COUNT && Applicable(s.text, e)
    ensures Coherent(AfterEdit(s, e))
  {
    RecordedFits(s.undo, Inverse(s.text, e));
  }

  // ------------------------------------------------------------------ undo against redo

  ghost predicate RedoRestores(s: State)
    requires s.undo != [] && Applicable(s.text, Last(s.undo))
  {
    if MustDiscard(s) then
      var d := AfterDiscardingUndo(s);
      StaleRedoable(d) && AfterLooseRedo(LooseOfDiscarded(d), StaleEdit(d)) == LooseOf(s)
    else
      var s' := AfterUndo(s);
      Applicable(s'.text, s'.redo[0]) && AfterRedo(s') == s
  }

  lemma KeptIsRestored(s: State)
    requires Bounded(s) && s.undo != [] && Applicable(s.text, Last(s.undo))
    requires Keeps(s)
    ensures RedoRestores(s)
  {
    var e := Last(s.undo);
    var s' := AfterUndo(s);
    InverseUndoes(s.text, e);
    SizeSplit(s.undo);
    SizeSplit(s'.redo);
    assert s'.redo[1..] == s.redo;
    assert Init(s.undo) + [e] == s.undo;
  }

  lemma LostIsNotRestored(s: State)
    requires s.undo != [] && Applicable(s.text, Last(s.undo))
    requires RedoTextLost(s)
    ensures !RedoRestores(s)
  {
    var e := Last(s.undo);
    var s' := AfterUndo(s);
    assert s'.redo[0].removed == [];
    assert |s'.text| == |s.text| - e.added + |e.removed|;
    assert Applicable(s'.text, s'.redo[0]) ==> |AfterRedo(s').text| < |s.text|;
  }

  lemma DiscardedIsNotRestored(s: State)
    requires s.undo != [] && Applicable(s.text, Last(s.undo))
    requires MustDiscard(s)
    ensures !RedoRestores(s)
  {
    var d := AfterDiscardingUndo(s);
    KeptRedoIsShorter(s.redo, Size(s.undo), Last(s.undo).added);
    assert StaleRedoable(d) ==> |AfterLooseRedo(LooseOfDiscarded(d), StaleEdit(d)).claims| == |d.redo|;
  }

  // Undo then redo is the identity on text, records and stored characters exactly when the
  // undo had room for everything it stores.
  lemma UndoThenRedo(s: State)
    requires Bounded(s) && s.undo != [] && Applicable(s.text, Last(s.undo))
    ensures RedoRestores(s) <==> Keeps(s)
  {
    if Keeps(s) {
      KeptIsRestored(s);
    } else if MustDiscard(s) {
      DiscardedIsNotRestored(s);
    } else {
      LostIsNotRestored(s);
    }
  }

  // Where the characters could not be kept, redo still deletes what undo put back, but has nothing
  // to put in its place.
  lemma RedoAfterLoss(s: State)
    requires s.undo != [] && Applicable(s.text, Last(s.undo)) && RedoTextLost(s)
    ensures var e, s' := Last(s.undo), AfterUndo(s);
      && s'.text == s.text[..e.where] + e.removed + s.text[e.where + e.added..]
      && Applicable(s'.text, s'.redo[0])
      && AfterRedo(s').text == s.text[..e.where] + s.text[e.where + e.added..]
  {
    var e, s' := Last(s.undo), AfterUndo(s);
    assert s'.text[..e.where] == s.text[..e.where];
    assert s'.text[e.where + |e.removed|..] == s.text[e.where + e.added..];
  }

  // By the lengths a caller can see beforehand.
  lemma UndoThenRedoByLengths(s: State)
    requires Bounded(s) && s.undo != [] && Applicable(s.text, Last(s.undo))
    ensures var n, size := Last(s.undo).added, Size(s.undo);
      RedoRestores(s) <==> n == 0 || (size + n < 999 && size + n + Size(s.redo) <= 999)
  {
    UndoThenRedo(s);
  }

  lemma {:induction false} KeptRedoIsShorter(redo: seq<Edit>, u: nat, n: nat)
    requires u + n < CHAR_COUNT
    ensures |KeptRedo(redo, u, n)| <= |redo|
    ensures u + n > CHAR_COUNT - Size(redo) ==> |KeptRedo(redo, u, n)| < |redo|
  {
    if u + n > CHAR_COUNT - Size(redo) {
      KeptRedoIsShorter(Init(redo), u, n);
    }
  }

  // Redo then undo is the identity in every coherent state; redo's "no room" branch is
  // never taken there.
  lemma RedoThenUndo(s: State)
    requires Coherent(s) && s.redo != [] && Applicable(s.text, s.redo[0])
    ensures !NoRoomToRedo(s)
    ensures var s' := AfterRedo(s); Applicable(s'.text, Last(s'.undo)) && Keeps(s') && AfterUndo(s') == s
  {
    RedoStaysCoherent(s);
    var r := s.redo[0];
    var s' := AfterRedo(s);
    InverseUndoes(s.text, r);
    StoredSnoc(s.undo, Inverse(s.text, r));
    SizeSplit(s.redo);
    assert Init(s'.undo) == s.undo;
    assert [r] + s.redo[1..] == s.redo;
  }

  // k undos in a row, none of which drops anything.
  ghost predicate CanUndo(s: State, k: nat)
    decreases k
  {
    k == 0 || (s.undo != [] && Applicable(s.text, Last(s.undo)) && Keeps(s) && CanUndo(AfterUndo(s), k - 1))
  }

  ghost function Undone(s: State, k: nat): State
    requires CanUndo(s, k)
    decreases k
  {
    if k == 0 then s else Undone(AfterUndo(s), k - 1)
  }

  ghost predicate CanRedo(s: State, k: nat)
    decreases k
  {
    k == 0 || (s.redo != [] && Applicable(s.text, s.redo[0]) && CanRedo(AfterRedo(s), k - 1))
  }

  ghost function Redone(s: State, k: nat): State
    requires CanRedo(s, k)
    decreases k
  {
    if k == 0 then s else Redone(AfterRedo(s), k - 1)
  }

  lemma {:induction false} RedoneSnoc(s: State, k: nat)
    requires CanRedo(s, k)
    requires var t := Redone(s, k); t.redo != [] && Applicable(t.text, t.redo[0])
    ensures CanRedo(s, k + 1) && Redone(s, k + 1) == AfterRedo(Redone(s, k))
    decreases k
  {
    if k == 0 {
      assert CanRedo(AfterRedo(s), 0);
    } else {
      RedoneSnoc(AfterRedo(s), k - 1);
    }
  }

  lemma {:induction false} UndoneSnoc(s: State, k: nat)
    requires CanUndo(s, k)
    requires var t := Undone(s, k); t.undo != [] && Applicable(t.text, Last(t.undo)) && Keeps(t)
    ensures CanUndo(s, k + 1) && Undone(s, k + 1) == AfterUndo(Undone(s, k))
    decreases k
  {
    if k == 0 {
      assert CanUndo(AfterUndo(s), 0);
    } else {
      UndoneSnoc(AfterUndo(s), k - 1);
    }
  }

  // Any nesting depth: k undos, then k redos.
  lemma {:induction false} UndosThenRedos(s: State, k: nat)
    requires Coherent(s) && CanUndo(s, k)
    ensures CanRedo(Undone(s, k), k) && Redone(Undone(s, k), k) == s
    decreases k
  {
    if k > 0 {
      UndoStaysCoherent(s);
      UndosThenRedos(AfterUndo(s), k - 1);
      UndoThenRedo(s);
      RedoneSnoc(Undone(s, k), k - 1);
    }
  }

  // Any nesting depth: k redos, then k undos.
  lemma {:induction false} RedosThenUndos(s: State, k: nat)
    requires Coherent(s) && CanRedo(s, k)
    ensures CanUndo(Redone(s, k), k) && Undone(Redone(s, k), k) == s
    decreases k
  {
    if k > 0 {
      RedoStaysCoherent(s);
      RedosThenUndos(AfterRedo(s), k - 1);
      RedoThenUndo(s);
      UndoneSnoc(Redone(s, k), k - 1);
    }
  }

  // ------------------------------------------------------------------------- the tape

  // Undoing the records one by one, last first, gives the texts `past`, last first.
  ghost predicate Past(t: Text, undo: seq<Edit>, past: seq<Text>)
    decreases |undo|
  {
    && |past| == |undo|
    && (undo != [] ==>
      && Applicable(t, Last(undo)) && Apply(t, Last(undo)) == past[|past| - 1]
      && Past(past[|past| - 1], Init(undo), past[..|past| - 1]))
  }

  // Redoing the records one by one gives the texts `future`.
  ghost predicate Future(t: Text, redo: seq<Edit>, future: seq<Text>)
    decreases |redo|
  {
    && |future| == |redo|
    && (redo != [] ==>
      && Applicable(t, redo[0]) && Apply(t, redo[0]) == future[0]
      && Future(future[0], redo[1..], future[1..]))
  }

  // The texts a user has seen: those undo leads back to, the current one, those redo leads
  // to.
  datatype Tape = Tape(past: seq<Text>, now: Text, future: seq<Text>)

  datatype Op = DoEdit(e: Edit) | DoUndo | DoRedo

  ghost predicate Shows(s: State, tape: Tape) {
    && Coherent(s) && s.text == tape.now
    && Past(tape.now, s.undo, tape.past) && Future(tape.now, s.redo, tape.future)
  }

  ghost predicate Enabled(s: State, op: Op) {
    match op
    case DoEdit(e) => Applicable(s.text, e)
    case DoUndo => s.undo != [] && Keeps(s)
    case DoRedo => s.redo != []
  }

  function Step(s: State, op: Op): State
    requires op.DoEdit? ==> Applicable(s.text, op.e)
    requires op.DoUndo? && s.undo != [] ==> Applicable(s.text, Last(s.undo)) && !MustDiscard(s)
    requires op.DoRedo? && s.redo != [] ==> Applicable(s.text, s.redo[0])
  {
    match op
    case DoEdit(e) => AfterEdit(s, e)
    case DoUndo => AfterUndo(s)
    case DoRedo => AfterRedo(s)
  }

  // Undo and redo move along the tape; an edit cuts the future off and adds the old text to
  // the past, of which the `keep` most recent texts survive.
  function Moved(tape: Tape, op: Op, keep: nat): Tape
    requires op.DoEdit? ==> Applicable(tape.now, op.e) && keep <= |tape.past| + 1
    requires op.DoUndo? ==> tape.past != []
    requires op.DoRedo? ==> tape.future != []
  {
    match op
    case DoEdit(e) =>
      Tape(Suffix(tape.past + [tape.now], keep), Apply(tape.now, e), [])
    case DoUndo =>
      Tape(tape.past[..|tape.past| - 1], tape.past[|tape.past| - 1], [tape.now] + tape.future)
    case DoRedo =>
      Tape(tape.past + [tape.now], tape.future[0], tape.future[1..])
  }

  lemma {:induction false} PastSuffix(t: Text, undo: seq<Edit>, past: seq<Text>, n: nat)
    requires Past(t, undo, past) && n <= |undo|
    ensures Past(t, Suffix(undo, n), Suffix(past, n))
    decreases n
  {
    if n > 0 {
      var before := past[|past| - 1];
      PastSuffix(before, Init(undo), past[..|past| - 1], n - 1);
      PastSnoc(before, Suffix(Init(undo), n - 1), Suffix(past[..|past| - 1], n - 1), t, Last(undo));
    }
  }

  lemma PastSnoc(t: Text, undo: seq<Edit>, past: seq<Text>, t': Text, back: Edit)
    requires Past(t, undo, past)
    requires Applicable(t', back) && Apply(t', back) == t
    ensures Past(t', undo + [back], past + [t])
  {
    assert Init(undo + [back]) == undo;
    assert (past + [t])[..|past|] == past;
  }

  // The n newest records and `back`, which leads from t' to t, lead back through the n + 1
  // most recent texts.
  lemma SuffixLeadsBack(t: Text, undo: seq<Edit>, past: seq<Text>, n: nat, t': Text, back: Edit)
    requires Past(t, undo, past) && n <= |undo|
    requires Applicable(t', back) && Apply(t', back) == t
    ensures Past(t', Suffix(undo, n) + [back], Suffix(past + [t], n + 1))
  {
    PastSuffix(t, undo, past, n);
    PastSnoc(t, Suffix(undo, n), Suffix(past, n), t', back);
    SuffixSnoc(past, t, n);
  }

  // An edit costs oldest records only: those left lead back to the text before it, then
  // through the most recent of the earlier ones.
  lemma {:induction false} EditKeepsPast(t: Text, undo: seq<Edit>, past: seq<Text>, e: Edit)
    requires Past(t, undo, past) && Applicable(t, e)
    ensures var undo' := Recorded(undo, Inverse(t, e));
      |undo'| <= |past| + 1 && Past(Apply(t, e), undo', Suffix(past + [t], |undo'|))
  {
    var back := Inverse(t, e);
    InverseUndoes(t, e);
    if |back.removed| <= CHAR_COUNT {
      var n := RecordedIsSuffix(undo, back);
      SuffixLeadsBack(t, undo, past, n, Apply(t, e), back);
    }
  }

  lemma EditMovesTape(s: State, tape: Tape, e: Edit)
    requires Shows(s, tape) && Applicable(s.text, e)
    ensures |AfterEdit(s, e).undo| <= |tape.past| + 1
    ensures Shows(AfterEdit(s, e), Moved(tape, DoEdit(e), |AfterEdit(s, e).undo|))
  {
    EditStaysCoherent(s, e);
    EditKeepsPast(s.text, s.undo, tape.past, e);
  }

  lemma UndoMovesTape(s: State, tape: Tape)
    requires Shows(s, tape) && s.undo != [] && Keeps(s)
    ensures Shows(AfterUndo(s), Moved(tape, DoUndo, 0))
  {
    var e := Last(s.undo);
    var s' := AfterUndo(s);
    UndoStaysCoherent(s);
    InverseUndoes(s.text, e);
    assert s'.redo[1..] == s.redo && ([tape.now] + tape.future)[1..] == tape.future;
  }

  lemma RedoMovesTape(s: State, tape: Tape)
    requires Shows(s, tape) && s.redo != []
    ensures Shows(AfterRedo(s), Moved(tape, DoRedo, 0))
  {
    RedoStaysCoherent(s);
    InverseUndoes(s.text, s.redo[0]);
    PastSnoc(s.text, s.undo, tape.past, tape.future[0], Inverse(s.text, s.redo[0]));
  }

  // For every run of edits, undos and redos in which no undo drops or discards anything,
  // the machine behaves as a tape: an undo always returns to the very text the edit (or
  // redo) before it replaced.
  ghost predicate TapeRun(ops: seq<Op>, states: seq<State>, tapes: seq<Tape>) {
    && |states| == |tapes| == |ops| + 1
    && Shows(states[0], tapes[0])
    && forall i :: 0 <= i < |ops| ==> TapeStep(ops, states, tapes, i)
  }

  ghost predicate TapeStep(ops: seq<Op>, states: seq<State>, tapes: seq<Tape>, i: nat)
    requires i < |ops| && |states| == |tapes| == |ops| + 1
  {
    Shows(states[i], tapes[i]) && Enabled(states[i], ops[i]) ==>
      && states[i + 1] == Step(states[i], ops[i])
      && var keep := if ops[i].DoEdit? then |states[i + 1].undo| else 0;
      && (ops[i].DoEdit? ==> keep <= |tapes[i].past| + 1)
      && tapes[i + 1] == Moved(tapes[i], ops[i], keep)
  }

  lemma {:induction false} RunFollowsTape(ops: seq<Op>, states: seq<State>, tapes: seq<Tape>, k: nat)
    requires TapeRun(ops, states, tapes)
    requires forall i :: 0 <= i < |ops| ==> Enabled(states[i], ops[i])
    requires k <= |ops|
    ensures Shows(states[k], tapes[k])
  {
    if k > 0 {
      RunFollowsTape(ops, states, tapes, k - 1);
      assert TapeStep(ops, states, tapes, k - 1);
      match ops[k - 1]
      case DoEdit(e) => EditMovesTape(states[k - 1], tapes[k - 1], e);
      case DoUndo => UndoMovesTape(states[k - 1], tapes[k - 1]);
      case DoRedo => RedoMovesTape(states[k - 1], tapes[k - 1]);
    }
  }

  // ------------------------------------------------------- edits alone, then undo them all

  ghost predicate EditsApply(t: Text, edits: seq<Edit>)
    decreases |edits|
  {
    edits == [] || (Applicable(t, edits[0]) && EditsApply(Apply(t, edits[0]), edits[1..]))
  }

  // The texts seen during the edits, the final one excluded.
  ghost function Seen(t: Text, edits: seq<Edit>): seq<Text>
    requires EditsApply(t, edits)
    decreases |edits|
  {
    if edits == [] then [] else [t] + Seen(Apply(t, edits[0]), edits[1..])
  }

  ghost function AfterEdits(s: State, edits: seq<Edit>): State
    requires EditsApply(s.text, edits)
    decreases |edits|
  {
    if edits == [] then s else AfterEdits(AfterEdit(s, edits[0]), edits[1..])
  }

  lemma MostRecent(past: seq<Text>, t: Text, k: nat, rest: seq<Text>, n: nat)
    requires k <= |past| + 1 && n <= k + |rest|
    ensures Suffix(Suffix(past + [t], k) + rest, n) == Suffix(past + ([t] + rest), n)
  {
    SuffixOfSuffix(past + [t], k, rest, n);
    Chained(past, [t], rest);
  }

  // However many records were discarded on the way, the surviving ones lead back through
  // exactly the most recent texts.
  lemma {:induction false} EditsLeavePast(s: State, past: seq<Text>, edits: seq<Edit>)
    requires EditsApply(s.text, edits) && Past(s.text, s.undo, past)
    ensures var s' := AfterEdits(s, edits);
      && |s'.undo| <= |past| + |edits|
      && |Seen(s.text, edits)| == |edits|
      && Past(s'.text, s'.undo, Suffix(past + Seen(s.text, edits), |s'.undo|))
    decreases |edits|
  {
    if edits == [] {
      assert past + [] == past;
      SuffixOfAll(past);
    } else {
      var s1 := AfterEdit(s, edits[0]);
      EditKeepsPast(s.text, s.undo, past, edits[0]);
      EditsLeavePast(s1, Suffix(past + [s.text], |s1.undo|), edits[1..]);
      MostRecent(past, s.text, |s1.undo|, Seen(s1.text, edits[1..]), |AfterEdits(s, edits).undo|);
    }
  }

  // ------------------------------------------------------------------ how many survive

  // The records of a run of edits, none of them discarded.
  ghost function Records(t: Text, edits: seq<Edit>): seq<Edit>
    requires EditsApply(t, edits)
    decreases |edits|
  {
    if edits == [] then [] else [Inverse(t, edits[0])] + Records(Apply(t, edits[0]), edits[1..])
  }

  // The k newest of all records are within the bounds of the stack, and no more of them are.
  ghost predicate MostThatFit(all: seq<Edit>, k: nat) {
    && k <= |all| && k <= 99 && FitsBeside(all, k, 0)
    && forall j :: k < j <= |all| && j <= 99 ==> !FitsBeside(all, j, 0)
  }

  lemma FitsSnoc(all: seq<Edit>, e: Edit, k: nat)
    requires k <= |all|
    ensures FitsBeside(all + [e], k + 1, 0) <==> FitsBeside(all, k, |e.removed|)
    ensures Suffix(all + [e], k + 1) == Suffix(all, k) + [e]
  {
    SuffixSnoc(all, e, k);
    StoredSnoc(Suffix(all, k), e);
  }

  // What is kept of the k newest is kept of all, where those before do not fit anyway.
  lemma FitsOfKept(all: seq<Edit>, k: nat, j: nat, n: nat)
    requires MostThatFit(all, k) && j <= |all| && j < STATE_COUNT
    ensures FitsBeside(all, j, n) ==> j <= k
    ensures j <= k ==> Suffix(Suffix(all, k), j) == Suffix(all, j)
  {
    if j <= k {
      SuffixOfPrefixless(all, k, j);
    } else {
      assert !FitsBeside(all, j, 0);
    }
  }

  lemma RecordingKeepsMost(all: seq<Edit>, k: nat, e: Edit) returns (k': nat)
    requires MostThatFit(all, k)
    ensures MostThatFit(all + [e], k') && Recorded(Suffix(all, k), e) == Suffix(all + [e], k')
  {
    var undo := Suffix(all, k);
    if |e.removed| > CHAR_COUNT {
      k' := 0;
      forall j | 0 < j <= |all| + 1
        ensures !FitsBeside(all + [e], j, 0)
      {
        FitsSnoc(all, e, j - 1);
      }
    } else {
      var n := RecordedIsSuffix(undo, e);
      k' := n + 1;
      FitsOfKept(all, k, n, |e.removed|);
      FitsSnoc(all, e, n);
      forall j | k' < j <= |all| + 1 && j <= STATE_COUNT
        ensures !FitsBeside(all + [e], j, 0)
      {
        FitsSnoc(all, e, j - 1);
        FitsOfKept(all, k, j - 1, |e.removed|);
        assert j - 1 <= k ==> !FitsBeside(undo, j - 1, |e.removed|);
      }
    }
  }

  // After any run of edits the undo stack holds the newest of all records there ever were, and
  // as many of them as its bounds allow.
  lemma {:induction false} EditsKeepMost(s: State, all: seq<Edit>, edits: seq<Edit>)
    requires EditsApply(s.text, edits)
    requires MostThatFit(all, |s.undo|) && s.undo == Suffix(all, |s.undo|)
    ensures var s' := AfterEdits(s, edits);
      var records := all + Records(s.text, edits);
      MostThatFit(records, |s'.undo|) && s'.undo == Suffix(records, |s'.undo|)
    decreases |edits|
  {
    if edits == [] {
      assert all + [] == all;
    } else {
      var back := Inverse(s.text, edits[0]);
      var s1 := AfterEdit(s, edits[0]);
      var k := RecordingKeepsMost(all, |s.undo|, back);
      EditsKeepMost(s1, all + [back], edits[1..]);
      Chained(all, [back], Records(s1.text, edits[1..]));
    }
  }

  // The failing family of UndoThenRedo is not empty, and edits alone lead into it: after
  // two insertions of 600 characters the second undo cannot keep the first undo's record.
  lemma TwoLongInsertionsLoseRedo(t1: Text, t2: Text)
    requires |t1| == 600 && |t2| == 600
    ensures var s := AfterEdits(State([], [], []), [Edit(0, t1, 0), Edit(0, t2, 0)]);
      && CanUndo(s, 1) && var s' := Undone(s, 1);
      && s'.undo != [] && Applicable(s'.text, Last(s'.undo)) && MustDiscard(s') && !RedoRestores(s')
  {
    var e1, e2 := Edit(0, t1, 0), Edit(0, t2, 0);
    var s0 := State([], [], []);
    var s1 := AfterEdit(s0, e1);
    assert s1.text == t1 && s1.undo == [Edit(0, [], 600)];
    var s2 := AfterEdit(s1, e2);
    assert s2.text == t2 + t1;
    assert s2.undo == [Edit(0, [], 600), Edit(0, [], 600)] by { assert Stored(s1.undo) == []; }
    assert AfterEdits(s2, []) == s2;
    assert AfterEdits(s0, [e1, e2]) == s2 by {
      assert [e1, e2][1..] == [e2] && [e2][1..] == [];
      assert AfterEdits(s1, [e2]) == s2;
    }
    SizeSplit(s2.undo);
    assert Size(s2.undo) == 0;
    var s3 := AfterUndo(s2);
    assert CanUndo(s3, 0);
    assert s3.undo == [Edit(0, [], 600)] && s3.redo == [Edit(0, t2, 0)];
    assert s3.text == t1 by { assert (t2 + t1)[600..] == t1; }
    assert Size(s3.redo) == 600 by { SizeSplit(s3.redo); }
    UndoThenRedo(s3);
  }
}
