/**
 The undo/redo machine of the text editor as values: a text and two stacks of edits. The
 class TextEdit keeps the same data in two shared arrays and is proved to take exactly the
 steps defined here.
 */
module UndoModel {
  const STATE_COUNT := 99
  const CHAR_COUNT := 999

  type Text = seq<int>

  // At `where`, delete `added` characters and insert `removed`.
  datatype Edit = Edit(where: nat, removed: Text, added: nat)

  // undo: oldest first, next to undo last. redo: next to redo first.
  datatype State = State(text: Text, undo: seq<Edit>, redo: seq<Edit>)

  function Apply(t: Text, e: Edit): Text
    requires Applicable(t, e)
  {
    t[..e.where] + e.removed + t[e.where + e.added..]
  }

  predicate Applicable(t: Text, e: Edit) {
    e.where + e.added <= |t|
  }

  // The edit that takes Apply(t, e) back to t.
  function Inverse(t: Text, e: Edit): Edit
    requires Applicable(t, e)
  {
    Edit(e.where, t[e.where..e.where + e.added], |e.removed|)
  }

  lemma InverseUndoes(t: Text, e: Edit)
    requires Applicable(t, e)
    ensures Applicable(Apply(t, e), Inverse(t, e))
    ensures Apply(Apply(t, e), Inverse(t, e)) == t
    ensures Inverse(Apply(t, e), Inverse(t, e)) == e
  {
    var u := Apply(t, e);
    assert u[..e.where] == t[..e.where];
    assert u[e.where + |e.removed|..] == t[e.where + e.added..];
    assert u[e.where..e.where + |e.removed|] == e.removed;
  }

  // ----------------------------------------------------------------- stored characters

  // The characters a stack of edits stores.
  function Stored(es: seq<Edit>): Text {
    if es == [] then [] else es[0].removed + Stored(es[1..])
  }

  function Size(es: seq<Edit>): nat {
    |Stored(es)|
  }

  lemma {:induction false} StoredConcat(a: seq<Edit>, b: seq<Edit>)
    ensures Stored(a + b) == Stored(a) + Stored(b)
  {
    if a == [] {
      assert a + b == b;
    } else {
      assert (a + b)[1..] == a[1..] + b;
      StoredConcat(a[1..], b);
    }
  }

  lemma StoredSnoc(a: seq<Edit>, e: Edit)
    ensures Stored(a + [e]) == Stored(a) + e.removed
  {
    StoredConcat(a, [e]);
    assert Stored([e]) == e.removed + Stored([]);
  }

  // ------------------------------------------------------------------------ new edits

  // What is left of the undo stack once there is room for n more characters.
  function DropUntilRoom(undo: seq<Edit>, n: nat): seq<Edit>
    requires n <= CHAR_COUNT
  {
    if Size(undo) + n <= CHAR_COUNT then undo else DropUntilRoom(undo[1..], n)
  }

  // stb_text_createundo: the oldest records make way; with too many characters to store,
  // nothing can be undone any more.
  function Recorded(undo: seq<Edit>, e: Edit): seq<Edit> {
    var kept := if |undo| == STATE_COUNT then undo[1..] else undo;
    if |e.removed| > CHAR_COUNT then [] else DropUntilRoom(kept, |e.removed|) + [e]
  }

  // The n characters at `where`; where nothing is taken, `where` is not looked at.
  function Taken(t: Text, where: nat, n: nat): Text
    requires n > 0 ==> where + n <= |t|
  {
    if n > 0 then t[where..where + n] else []
  }

  // What insert mode records, whatever replaces the unit at `where`.
  function ReplaceRecord(t: Text, where: nat): Edit
    requires where < |t|
  {
    Edit(where, t[where..where + 1], 1)
  }

  // The record takes the replacement back exactly when it was by one unit.
  lemma ReplaceRecordUndoes(t: Text, where: nat, put: Text)
    requires where < |t|
    ensures var t' := Apply(t, Edit(where, put, 1));
      var back := ReplaceRecord(t, where);
      Applicable(t', back) && Apply(t', back) == t <==> |put| == 1
  {
    if |put| == 1 {
      InverseUndoes(t, Edit(where, put, 1));
    }
  }

  // The user replaces `old` characters at `where` by `put`.
  function AfterEdit(s: State, e: Edit): State
    requires Applicable(s.text, e)
  {
    State(Apply(s.text, e), Recorded(s.undo, Inverse(s.text, e)), [])
  }

  // ------------------------------------------------------------------- undo and redo

  function Last(es: seq<Edit>): Edit
    requires es != []
  {
    es[|es| - 1]
  }

  function Init(es: seq<Edit>): seq<Edit>
    requires es != []
  {
    es[..|es| - 1]
  }

  // The undo records take so much space that the redo characters cannot be stored at all.
  predicate RedoTextLost(s: State)
    requires s.undo != []
  {
    Last(s.undo).added > 0 && Size(s.undo) + Last(s.undo).added >= CHAR_COUNT
  }

  // Storing the redo characters means discarding redo records.
  predicate MustDiscard(s: State)
    requires s.undo != []
  {
    Last(s.undo).added > 0 && !RedoTextLost(s)
    && Size(s.undo) + Last(s.undo).added > CHAR_COUNT - Size(s.redo)
  }

  // The oldest redo records make way for n characters beside u undo characters.
  function KeptRedo(redo: seq<Edit>, u: nat, n: nat): seq<Edit>
    requires u + n < CHAR_COUNT
  {
    if u + n <= CHAR_COUNT - Size(redo) then redo else KeptRedo(Init(redo), u, n)
  }

  // stb_text_undo, when no redo record has to make way.
  function AfterUndo(s: State): State
    requires s.undo != [] ==> Applicable(s.text, Last(s.undo)) && !MustDiscard(s)
  {
    if s.undo == [] then s
    else
      var e := Last(s.undo);
      var back := Inverse(s.text, e);
      State(Apply(s.text, e), Init(s.undo),
            [if RedoTextLost(s) then back.(removed := []) else back] + s.redo)
  }

  // A redo record with the fields of one record and the characters of another: it claims
  // `claimed` characters, but those saved for it are `stored`.
  datatype StaleRec = StaleRec(where: nat, claimed: nat, added: nat, stored: Text)

  function StaleOf(next: Edit, stored: Text): StaleRec {
    StaleRec(next.where, |next.removed|, next.added, stored)
  }

  // What an undo leaves that discards redo records: the next one is stale.
  datatype Discarded = Discarded(text: Text, undo: seq<Edit>, stale: StaleRec, redo: seq<Edit>)

  // stb_text_undo, when redo records make way: the slot the new redo record is finished in
  // is not the one its fields were written to, but holds a copy of the record that was next.
  function AfterDiscardingUndo(s: State): Discarded
    requires s.undo != [] && Applicable(s.text, Last(s.undo)) && MustDiscard(s)
  {
    var e := Last(s.undo);
    Discarded(Apply(s.text, e), Init(s.undo),
              StaleOf(s.redo[0], Inverse(s.text, e).removed),
              KeptRedo(s.redo, Size(s.undo), e.added))
  }

  // The characters from redo_char_point on are those stored, then those of the records kept;
  // redoing the stale record inserts as many of them as it claims.
  predicate StaleRedoable(d: Discarded) {
    d.stale.claimed <= |d.stale.stored| + Size(d.redo) && d.stale.where + d.stale.added <= |d.text|
  }

  function StaleEdit(d: Discarded): Edit
    requires StaleRedoable(d)
  {
    Edit(d.stale.where, (d.stale.stored + Stored(d.redo))[..d.stale.claimed], d.stale.added)
  }

  // The redo record's characters would run into the redo characters.
  predicate NoRoomToRedo(s: State)
    requires s.redo != []
  {
    s.redo[0].added > 0 && Size(s.undo) + s.redo[0].added > CHAR_COUNT - Size(s.redo)
  }

  // stb_text_redo
  function AfterRedo(s: State): State
    requires s.redo != [] ==> Applicable(s.text, s.redo[0])
  {
    if s.redo == [] then s
    else
      var r := s.redo[0];
      State(Apply(s.text, r),
            s.undo + [if NoRoomToRedo(s) then Edit(r.where, [], 0) else Inverse(s.text, r)],
            s.redo[1..])
  }

  // -------------------------------------------------- redo records by their lengths alone

  // All that undoing depends on. claims: the insert lengths of the redo records, next to
  // redo first; rcp: redo_char_point. With a stale record among them the claims need not add
  // up to the characters from rcp on.
  datatype Loose = Loose(text: Text, undo: seq<Edit>, claims: seq<nat>, rcp: int)

  function Lengths(es: seq<Edit>): (ns: seq<nat>) {
    seq(|es|, i requires 0 <= i < |es| => |es[i].removed|)
  }

  function LooseOf(s: State): Loose {
    Loose(s.text, s.undo, Lengths(s.redo), CHAR_COUNT - Size(s.redo))
  }

  function LooseOfDiscarded(d: Discarded): Loose {
    Loose(d.text, d.undo, [d.stale.claimed] + Lengths(d.redo), CHAR_COUNT - |d.stale.stored| - Size(d.redo))
  }

  // Found: there is room, in front of rcp, with these claims left. Exhausted: all redo
  // records were discarded and there is still no room. Overrun: rcp has left the array.
  datatype Room = Found(claims: seq<nat>, rcp: int) | Exhausted(rcp: int) | Overrun

  // The loop that discards oldest redo records until `need` characters lie below rcp.
  function MakeRoom(claims: seq<nat>, rcp: int, need: nat): Room
    requires need <= CHAR_COUNT
    decreases |claims|
  {
    if need <= rcp then if rcp <= CHAR_COUNT then Found(claims, rcp) else Overrun
    else if claims == [] then Exhausted(rcp)
    else MakeRoom(claims[..|claims| - 1], rcp + claims[|claims| - 1], need)
  }

  // The redo side once an undo beside u undo characters has saved n characters for redo.
  function SaveSpace(claims: seq<nat>, rcp: int, u: nat, n: nat): Room {
    if n == 0 || u + n >= CHAR_COUNT then Found([0] + claims, rcp)
    else
      match MakeRoom(claims, rcp, u + n)
      case Found(kept, r) => Found([if |kept| == |claims| then n else claims[0]] + kept, r - n)
      case Exhausted(r) => Exhausted(r)
      case Overrun => Overrun
  }

  // Nothing: the stack is empty. Stuck: the text and the undo stack are as before, the redo
  // stack is empty. Undefined: the program reads or writes outside its arrays or the text, or
  // leaves the cursor outside it.
  datatype Outcome = Nothing | Done | Stuck | Undefined

  // The outcome, the claims and redo_char_point that `m` comes to.
  ghost predicate ComesTo(m: Room, o: Outcome, claims: seq<nat>, rcp: int) {
    match m
    case Found(kept, r) => o == Done && claims == kept && rcp == r
    case Exhausted(r) => o == Stuck && claims == [] && rcp == r
    case Overrun => o == Undefined
  }

  // stb_text_undo, whatever the redo records claim
  function UndoOnce(l: Loose): (Outcome, Loose) {
    if l.undo == [] then (Nothing, l)
    else
      match SaveSpace(l.claims, l.rcp, Size(l.undo), Last(l.undo).added)
      case Found(claims, rcp) =>
        if Applicable(l.text, Last(l.undo)) then
          (Done, Loose(Apply(l.text, Last(l.undo)), Init(l.undo), claims, rcp))
        else
          (Undefined, l)
      case Exhausted(rcp) => (Stuck, Loose(l.text, l.undo, [], rcp))
      case Overrun => (Undefined, l)
  }

  // The characters redo record r deletes do not fit below rcp.
  predicate NoRoomBelow(l: Loose, r: Edit) {
    r.added > 0 && Size(l.undo) + r.added > l.rcp
  }

  // stb_text_redo, with what the next record really inserts: r.removed
  function AfterLooseRedo(l: Loose, r: Edit): Loose
    requires l.claims != [] && |r.removed| == l.claims[0] && Applicable(l.text, r)
  {
    Loose(Apply(l.text, r), l.undo + [if NoRoomBelow(l, r) then Edit(r.where, [], 0) else Inverse(l.text, r)],
          l.claims[1..], l.rcp + |r.removed|)
  }

  // l' is what l comes to when the next redo record is found to insert and delete what r does.
  ghost predicate RedoneBy(l: Loose, r: Edit, l': Loose) {
    && l.claims != [] && |r.removed| == l.claims[0] && Applicable(l.text, r)
    && l' == AfterLooseRedo(l, r)
  }
}
