/**
 The undo section of the text editor in its own form: indices into the shared arrays, and the
 operations that move them. Ghost logs name the edits the records stand for; `claims` is what
 is known of the redo records after an undo that had to discard some.
 */
module TextEdit {
  import opened Sequences
  import opened UndoModel
  import opened UndoTheorems
  import opened UndoDiscards
  import opened UndoArrays

  class TextEdit {
    const rec: array<UndoRec>
    const chars: array<int>
    var undoPoint: int
    var redoPoint: int
    var undoCharPoint: int
    var redoCharPoint: int
    var text: Text
    var cursor: int

    ghost var undoLog: seq<Edit>
    ghost var redoLog: seq<Edit>
    ghost var claims: seq<nat>

    ghost function Model(): State
      reads this
    {
      State(text, undoLog, redoLog)
    }

    ghost function LooseModel(): Loose
      reads this
    {
      Loose(text, undoLog, claims, redoCharPoint)
    }

    ghost predicate Shape()
      reads this
    {
      && rec.Length == STATE_COUNT && chars.Length == CHAR_COUNT
      && 0 <= undoPoint <= redoPoint <= STATE_COUNT
      && 0 <= undoCharPoint <= redoCharPoint && undoCharPoint <= CHAR_COUNT
    }

    ghost predicate UndoValid()
      reads this, rec, chars
    {
      Shape() && UndoPart(rec[..], chars[..], undoPoint, undoCharPoint, undoLog)
    }

    // Every redo record has its characters in place.
    ghost predicate RedoInPlace()
      reads this, rec, chars
    {
      Shape() && InPlace(rec[..], chars[..], redoPoint, redoCharPoint, redoLog, claims)
    }

    ghost predicate RedoClaimed()
      reads this, rec
    {
      Shape() && ClaimsPart(rec[..], redoPoint, claims)
    }

    // Holds until an undo has to discard redo records, and again after the next edit.
    ghost predicate Valid()
      reads this, rec, chars
    {
      UndoValid() && RedoInPlace()
    }

    // What holds at all times.
    ghost predicate LooseValid()
      reads this, rec, chars
    {
      UndoValid() && RedoClaimed() && Sound(LooseModel())
    }

    lemma ValidIsLoose()
      requires Valid()
      ensures LooseValid() && LooseModel() == LooseOf(Model()) && Bounded(Model())
    {
      RedoPartClaims(rec[..], chars[..], redoPoint, redoCharPoint, redoLog);
      CoherentIsSound(Model());
    }

    // stb_textedit_clear_state, the part that concerns undo
    constructor ClearState(str: Text)
      ensures Valid() && Model() == State(str, [], [])
      ensures fresh(rec) && fresh(chars)
    {
      rec := new UndoRec[STATE_COUNT](_ => UndoRec(0, 0, 0, 0));
      chars := new int[CHAR_COUNT](_ => 0);
      undoPoint, undoCharPoint := 0, 0;
      redoPoint, redoCharPoint := STATE_COUNT, CHAR_COUNT;
      text, cursor := str, 0;
      undoLog, redoLog, claims := [], [], [];
    }

    // stb_textedit_flush_redo
    method FlushRedo()
      requires UndoValid()
      modifies this`redoPoint, this`redoCharPoint, this`redoLog, this`claims
      ensures Valid() && redoLog == []
    {
      redoPoint := STATE_COUNT;
      redoCharPoint := CHAR_COUNT;
      redoLog, claims := [], [];
    }

    // stb_textedit_discard_undo
    method DiscardUndo()
      requires Valid()
      modifies this`undoPoint, this`undoCharPoint, this`undoLog, rec, chars
      ensures Valid()
      ensures undoLog == if old(undoLog) == [] then [] else old(undoLog)[1..]
    {
      if undoPoint > 0 {
        var n := SlideDown(rec, chars, undoPoint, undoCharPoint, undoLog, redoPoint, redoCharPoint, redoLog);
        undoPoint, undoCharPoint, undoLog := undoPoint - 1, undoCharPoint - n, undoLog[1..];
      }
    }

    // stb_textedit_discard_redo. It is undefined when the record claims more characters than
    // lie above redo_char_point.
    method DiscardRedo() returns (defined: bool)
      requires RedoClaimed()
      modifies this`redoPoint, this`redoCharPoint, this`redoLog, this`claims, rec, chars
      ensures defined <==> old(claims == [] || Discardable(rec[STATE_COUNT - 1], redoCharPoint))
      ensures old(claims) == [] || !defined ==> unchanged(this, rec, chars)
      ensures defined && old(claims) != [] ==>
        && RedoClaimed() && claims == old(claims[..|claims| - 1])
        && redoPoint == old(redoPoint) + 1 && redoCharPoint == old(redoCharPoint) + old(claims[|claims| - 1])
        && SlidUp(old(rec[..]), old(chars[..]), rec[..], chars[..], old(redoPoint), old(redoCharPoint),
                  old(claims[|claims| - 1]))
      ensures old(RedoInPlace()) && old(redoLog) != [] ==> defined && RedoInPlace() && redoLog == Init(old(redoLog))
    {
      if redoPoint <= STATE_COUNT - 1 {
        ghost var recs, cs := rec[..], chars[..];
        assert ClaimAt(recs, redoPoint, claims, |claims| - 1);
        InPlaceWithin(recs, cs, redoPoint, redoCharPoint, redoLog, claims);
        var n;
        n, defined := SlideUp(rec, chars, redoPoint, redoCharPoint);
        if !defined {
          return;
        }
        LastDiscarded(recs, cs, redoPoint, redoCharPoint, redoLog, claims, rec[..], chars[..]);
        redoPoint, redoCharPoint := redoPoint + 1, redoCharPoint + n;
        claims, redoLog := claims[..|claims| - 1], if redoLog == [] then [] else Init(redoLog);
      }
      defined := true;
    }

    // stb_text_create_undo_record. On success the record rec[undoPoint - 1] is reserved and
    // the log does not name it yet; null is -1.
    method CreateUndoRecord(numchars: nat) returns (r: int)
      requires UndoValid()
      modifies this`undoPoint, this`undoCharPoint, this`undoLog
      modifies this`redoPoint, this`redoCharPoint, this`redoLog, this`claims, rec, chars
      ensures Shape() && redoLog == [] && RedoInPlace()
      ensures numchars > CHAR_COUNT ==> r == -1 && Valid() && undoLog == []
      ensures numchars <= CHAR_COUNT ==>
        && r == undoPoint - 1 && UndoPart(rec[..], chars[..], undoPoint - 1, undoCharPoint, undoLog)
        && undoLog == DropUntilRoom(if |old(undoLog)| == STATE_COUNT then old(undoLog)[1..] else old(undoLog), numchars)
        && StaysMost(old(undoLog), numchars, undoLog)
        && undoCharPoint + numchars <= CHAR_COUNT
    {
      FlushRedo();
      ghost var was := undoLog;
      if undoPoint == STATE_COUNT {
        DiscardUndo();
      }
      if numchars > CHAR_COUNT {
        undoPoint, undoCharPoint, undoLog := 0, 0, [];
        return -1;
      }
      ghost var kept := undoLog;
      while undoCharPoint + numchars > CHAR_COUNT
        invariant Valid() && redoLog == [] && undoPoint < STATE_COUNT
        invariant DropUntilRoom(undoLog, numchars) == DropUntilRoom(kept, numchars)
        decreases |undoLog|
      {
        DiscardUndo();
      }
      RoomIsMost(was, numchars);
      r := undoPoint;
      undoPoint := undoPoint + 1;
    }

    // stb_text_createundo, and the copying of the characters about to be deleted.
    method MakeUndo(where: nat, oldLength: nat, newLength: nat)
      requires UndoValid()
      requires oldLength > 0 ==> where + oldLength <= |text|
      modifies this`undoPoint, this`undoCharPoint, this`undoLog
      modifies this`redoPoint, this`redoCharPoint, this`redoLog, this`claims, rec, chars
      ensures Valid() && redoLog == []
      ensures undoLog == Recorded(old(undoLog), Edit(where, Taken(text, where, oldLength), newLength))
      ensures oldLength > CHAR_COUNT ==> undoLog == []
      ensures oldLength <= CHAR_COUNT ==>
        undoLog != [] && StackedOnMost(
          old(undoLog), Edit(where, if oldLength == 0 then [] else text[where..where + oldLength], newLength), undoLog)
    {
      ghost var e := Edit(where, Taken(text, where, oldLength), newLength);
      ghost var was := undoLog;
      var r := CreateUndoRecord(oldLength);
      if r != -1 {
        ghost var recs, cs := rec[..], chars[..];
        rec[r] := UndoRec(where, oldLength, newLength, if oldLength == 0 then -1 else undoCharPoint);
        if oldLength > 0 {
          SaveChars(chars, undoCharPoint, text, where, oldLength);
        }
        StackUndo(recs, cs, undoLog, e, rec[..], chars[..]);
        undoCharPoint, undoLog := undoCharPoint + oldLength, undoLog + [e];
      }
      RecordedAsMost(was, e);
    }

    // stb_text_makeundo_insert
    method MakeUndoInsert(where: nat, length: nat)
      requires UndoValid()
      modifies this`undoPoint, this`undoCharPoint, this`undoLog
      modifies this`redoPoint, this`redoCharPoint, this`redoLog, this`claims, rec, chars
      ensures Valid() && redoLog == [] && undoLog == Recorded(old(undoLog), Edit(where, [], length))
    {
      MakeUndo(where, 0, length);
    }

    // stb_text_makeundo_delete
    method MakeUndoDelete(where: nat, length: nat)
      requires UndoValid() && where + length <= |text|
      modifies this`undoPoint, this`undoCharPoint, this`undoLog
      modifies this`redoPoint, this`redoCharPoint, this`redoLog, this`claims, rec, chars
      ensures Valid() && redoLog == []
      ensures undoLog == Recorded(old(undoLog), Edit(where, text[where..where + length], 0))
    {
      assert length == 0 ==> text[where..where + length] == [];
      MakeUndo(where, length, 0);
    }

    // stb_text_makeundo_replace, of one character by one
    method MakeUndoReplace(where: nat)
      requires UndoValid() && where < |text|
      modifies this`undoPoint, this`undoCharPoint, this`undoLog
      modifies this`redoPoint, this`redoCharPoint, this`redoLog, this`claims, rec, chars
      ensures Valid() && redoLog == [] && undoLog == Recorded(old(undoLog), ReplaceRecord(text, where))
    {
      MakeUndo(where, 1, 1);
    }

    // stb_textedit_delete
    method DeleteRange(where: nat, length: nat)
      requires UndoValid() && where + length <= |text|
      modifies this, rec, chars
      ensures Valid() && text == old(text[..where] + text[where + length..])
      ensures Model() == AfterEdit(old(Model()), Edit(where, [], length))
    {
      MakeUndoDelete(where, length);
      text := text[..where] + text[where + length..];
      assert text == Apply(old(text), Edit(where, [], length));
    }

    // stb_textedit_text without a selection to replace, every character accepted
    method InsertText(put: Text)
      requires UndoValid() && 0 <= cursor <= |text|
      modifies this, rec, chars
      ensures cursor == old(cursor) + |put| && text == old(text[..cursor] + put + text[cursor..])
      ensures put == [] ==> unchanged(this, rec, chars)
      ensures put != [] ==> Valid() && Model() == AfterEdit(old(Model()), Edit(old(cursor), put, 0))
    {
      text := text[..cursor] + put + text[cursor..];
      if put == [] {
        assert text == old(text);
      } else {
        MakeUndoInsert(cursor, |put|);
        cursor := cursor + |put|;
      }
    }

    // stb_textedit_text in insert mode: one unit is replaced by all of put, but recorded is the
    // replacement of one unit by one.
    method ReplaceText(put: Text)
      requires UndoValid() && 0 <= cursor < |text|
      modifies this, rec, chars
      ensures Valid() && redoLog == [] && cursor == old(cursor) + |put|
      ensures text == Apply(old(text), Edit(old(cursor), put, 1)) == old(text[..cursor] + put + text[cursor + 1..])
      ensures undoLog == Recorded(old(undoLog), ReplaceRecord(old(text), old(cursor)))
      ensures |put| == 1 ==> Model() == AfterEdit(old(Model()), Edit(old(cursor), put, 1))
    {
      MakeUndoReplace(cursor);
      text := text[..cursor] + text[cursor + 1..];
      text := text[..cursor] + put + text[cursor..];
      assert text == Apply(old(text), Edit(cursor, put, 1));
      cursor := cursor + |put|;
    }

    // The while loop of stb_text_undo with its exit: Done when there is room, Stuck when no
    // redo record is left to discard, Undefined when a discard was.
    method MakeRoomForRedo(n: nat) returns (o: Outcome)
      requires RedoClaimed() && undoCharPoint + n < CHAR_COUNT
      modifies this`redoPoint, this`redoCharPoint, this`redoLog, this`claims, rec, chars
      ensures ComesTo(MakeRoom(old(claims), old(redoCharPoint), undoCharPoint + n), o, claims, redoCharPoint)
      ensures !o.Undefined? ==> RedoClaimed() && Discarding(old(rec[..]), rec[..], old(redoPoint), redoPoint)
      ensures undoCharPoint + n <= old(redoCharPoint) ==>
        redoPoint == old(redoPoint) && rec[..] == old(rec[..]) && chars[..] == old(chars[..])
      ensures !o.Undefined? ==> Same(old(chars[..]), chars[..], 0, undoCharPoint)
      ensures old(RedoInPlace()) ==> o == Done && RedoInPlace() && redoLog == KeptRedo(old(redoLog), undoCharPoint, n)
    {
      ghost var recs, cs, rp := rec[..], chars[..], redoPoint;
      while undoCharPoint + n > redoCharPoint
        invariant RedoClaimed() && Discarding(recs, rec[..], rp, redoPoint)
        invariant MakeRoom(claims, redoCharPoint, undoCharPoint + n)
          == MakeRoom(old(claims), old(redoCharPoint), undoCharPoint + n)
        invariant undoCharPoint + n <= old(redoCharPoint) ==>
          redoPoint == rp && rec[..] == recs && chars[..] == cs && redoCharPoint == old(redoCharPoint)
        invariant Same(cs, chars[..], 0, undoCharPoint)
        invariant old(RedoInPlace()) ==>
          RedoInPlace() && KeptRedo(redoLog, undoCharPoint, n) == KeptRedo(old(redoLog), undoCharPoint, n)
        decreases |claims|
      {
        if redoPoint == STATE_COUNT {
          return Stuck;
        }
        ghost var recs1, cs1, rp1, rcp1 := rec[..], chars[..], redoPoint, redoCharPoint;
        assert ClaimAt(recs1, rp1, claims, |claims| - 1);
        var defined := DiscardRedo();
        if !defined {
          return Undefined;
        }
        DiscardsOne(recs, recs1, cs1, rp, rp1, rcp1, redoCharPoint - rcp1, rec[..], chars[..]);
        SameWithin(cs1, chars[..], 0, rcp1, 0, undoCharPoint);
        SameTwice(cs, cs1, chars[..], 0, undoCharPoint);
      }
      o := if redoCharPoint <= CHAR_COUNT then Done else Undefined;
    }

    ghost predicate InText(u: UndoRec)
      reads this
    {
      u.where + u.deleteLength <= |text|
    }

    // The slot below the redo stack has been filled, but redoPoint not moved yet.
    ghost predicate SlotClaimed()
      reads this, rec
    {
      Shape() && 1 <= redoPoint && ClaimsPart(rec[..], redoPoint - 1, claims)
    }

    // The edit whose record is to be stacked for redo when record u is undone.
    ghost function BackOf(u: UndoRec): Edit
      reads this
      requires 0 <= u.where && 0 <= u.deleteLength && 0 <= u.insertLength && InText(u)
    {
      Edit(u.where, text[u.where..u.where + u.deleteLength], u.insertLength)
    }

    // Completes the slot below the redo stack: its characters are those undo record u deletes.
    // inPlace: the redo stack was in place before room was made, and then had the log log0.
    method SaveSlotChars(u: UndoRec, ghost inPlace: bool, ghost recs0: seq<UndoRec>, ghost chars0: seq<int>,
                         ghost rp0: nat, ghost rcp0: nat, ghost log0: seq<Edit>)
      requires RedoClaimed() && 1 <= redoPoint
      requires 0 <= u.where && 0 < u.deleteLength && 0 <= u.insertLength && InText(u)
      requires undoCharPoint + u.deleteLength <= redoCharPoint <= CHAR_COUNT
      requires undoCharPoint + u.deleteLength < CHAR_COUNT
      requires var r := rec[redoPoint - 1]; 0 <= r.where && 0 <= r.insertLength && 0 <= r.deleteLength
      requires inPlace ==> RedoPart(recs0, chars0, rp0, rcp0, log0) && RedoInPlace()
      requires inPlace ==>
        RoomMade(recs0, rp0, rcp0, log0, rec[..], redoPoint, redoCharPoint, redoLog, BackOf(u), undoCharPoint)
      modifies this`redoCharPoint, this`claims, this`redoLog, rec, chars
      ensures SlotClaimed() && claims == [old(rec[redoPoint - 1].insertLength)] + old(claims)
      ensures redoCharPoint == old(redoCharPoint) - u.deleteLength
      ensures Same(old(rec[..]), rec[..], 0, redoPoint - 1) && Same(old(chars[..]), chars[..], 0, undoCharPoint)
      ensures inPlace ==>
        SavedOnTop(rec[..], chars[..], redoPoint - 1, redoCharPoint, redoLog, claims,
                   old(BackOf(u)), undoCharPoint, rcp0, log0)
    {
      ghost var recs, cs := rec[..], chars[..];
      var r := redoPoint - 1;
      rec[r] := rec[r].(charStorage := redoCharPoint - u.deleteLength);
      redoCharPoint := redoCharPoint - u.deleteLength;
      SaveChars(chars, redoCharPoint, text, u.where, u.deleteLength);
      SameBeside(recs, rec[..], r);
      WrittenElsewhere(cs, chars[..], redoCharPoint, BackOf(u).removed);
      PushClaim(recs, redoPoint, claims, rec[r]);
      if inPlace {
        redoLog := SaveOnTop(recs0, chars0, rp0, rcp0, log0,
                             recs, cs, redoPoint, redoCharPoint + u.deleteLength, redoLog, claims,
                             BackOf(u), undoCharPoint, rec[..], chars[..]);
      }
      claims := [rec[r].insertLength] + claims;
    }

    // The branch of stb_text_undo that saves the characters undo record u deletes. When redo
    // records were discarded, the slot it completes holds a copy of the one that was next.
    method SaveRedoChars(u: UndoRec) returns (o: Outcome)
      requires RedoClaimed() && 1 <= redoPoint
      requires 0 <= u.where && 0 < u.deleteLength && 0 <= u.insertLength && undoCharPoint + u.deleteLength < CHAR_COUNT
      requires rec[redoPoint - 1] == UndoRec(u.where, u.deleteLength, u.insertLength, -1)
      modifies this`redoPoint, this`redoCharPoint, this`redoLog, this`claims, rec, chars
      ensures var m := SaveSpace(old(claims), old(redoCharPoint), undoCharPoint, u.deleteLength);
        if m.Found? && !InText(u) then o == Undefined else ComesTo(m, o, claims, redoCharPoint)
      ensures o.Done? ==> SlotClaimed()
      ensures o.Stuck? ==> RedoClaimed()
      ensures !o.Undefined? ==> Same(old(rec[..]), rec[..], 0, old(redoPoint) - 1)
      ensures !o.Undefined? ==> Same(old(chars[..]), chars[..], 0, undoCharPoint)
      ensures old(RedoInPlace()) && o.Done? ==>
        SavedOnTop(rec[..], chars[..], redoPoint - 1, redoCharPoint, redoLog, claims,
                   old(BackOf(u)), undoCharPoint, old(redoCharPoint), old(redoLog))
    {
      ghost var recs0, cs0, log0 := rec[..], chars[..], redoLog;
      MakeRoomFound(claims, redoCharPoint, undoCharPoint + u.deleteLength);
      o := MakeRoomForRedo(u.deleteLength);
      if !o.Done? {
        return;
      }
      if u.where + u.deleteLength > |text| {
        return Undefined;
      }
      ghost var recs, cs := rec[..], chars[..];
      SlotClaims(recs0, old(redoPoint), old(claims), recs, redoPoint);
      SaveSlotChars(u, old(RedoInPlace()), recs0, cs0, old(redoPoint), old(redoCharPoint), log0);
      SameTwice(cs0, cs, chars[..], 0, undoCharPoint);
      SameTwice(recs0, recs, rec[..], 0, old(redoPoint) - 1);
    }

    // The other branches: the record stores no characters.
    method SaveNoChars(u: UndoRec)
      requires RedoClaimed() && 1 <= redoPoint && 0 <= u.where && 0 <= u.insertLength
      requires rec[redoPoint - 1] == UndoRec(u.where, u.deleteLength, u.insertLength, -1)
      modifies this`redoLog, this`claims, rec
      ensures SlotClaimed() && claims == [0] + old(claims)
      ensures Same(old(rec[..]), rec[..], 0, redoPoint - 1)
      ensures old(RedoInPlace()) ==>
        && redoLog == [Edit(u.where, [], u.insertLength)] + old(redoLog)
        && InPlace(rec[..], chars[..], redoPoint - 1, redoCharPoint, redoLog, claims)
    {
      ghost var recs, bare := rec[..], Edit(u.where, [], u.insertLength);
      rec[redoPoint - 1] := rec[redoPoint - 1].(insertLength := 0);
      SameBeside(recs, rec[..], redoPoint - 1);
      StackBare(recs, chars[..], redoPoint, redoCharPoint, redoLog, claims, bare, rec[..]);
      claims, redoLog := [0] + claims, [bare] + redoLog;
    }

    // The first half of stb_text_undo: a redo record for undo record u.
    method SaveRedo(u: UndoRec) returns (o: Outcome)
      requires RedoClaimed() && 1 <= undoPoint
      requires 0 <= u.where && 0 <= u.insertLength && 0 <= u.deleteLength
      modifies this`redoPoint, this`redoCharPoint, this`redoLog, this`claims, rec, chars
      ensures var m := SaveSpace(old(claims), old(redoCharPoint), undoCharPoint, u.deleteLength);
        if m.Found? && !InText(u) then o == Undefined else ComesTo(m, o, claims, redoCharPoint)
      ensures o.Done? ==> SlotClaimed()
      ensures o.Stuck? ==> RedoClaimed()
      ensures !o.Undefined? ==> Same(old(rec[..]), rec[..], 0, old(redoPoint) - 1)
      ensures !o.Undefined? ==> Same(old(chars[..]), chars[..], 0, undoCharPoint)
      ensures old(RedoInPlace()) && o.Done? ==>
        Topped(rec[..], chars[..], redoPoint - 1, redoCharPoint, redoLog, claims,
               old(BackOf(u)), undoCharPoint, old(redoCharPoint), old(redoLog))
    {
      ghost var recs0 := rec[..];
      var r := redoPoint - 1;
      rec[r] := UndoRec(u.where, u.deleteLength, u.insertLength, -1);
      ghost var recs := rec[..];
      SameBeside(recs0, recs, r);
      KeepBelow(recs0, chars[..], redoPoint, redoCharPoint, redoLog, claims, recs);
      if u.deleteLength > 0 && undoCharPoint + u.deleteLength < CHAR_COUNT {
        o := SaveRedoChars(u);
      } else {
        SaveNoChars(u);
        o := if u.where + u.deleteLength <= |text| then Done else Undefined;
      }
      if !o.Undefined? {
        SameTwice(recs0, recs, rec[..], 0, r);
      }
    }

    // The characters record r inserts.
    ghost predicate StoredAt(r: UndoRec, t: Text)
      reads chars
    {
      r.insertLength > 0 ==>
        0 <= r.charStorage && r.charStorage + r.insertLength <= chars.Length
        && chars[r.charStorage..r.charStorage + r.insertLength] == t
    }

    // STB_TEXTEDIT_DELETECHARS, and STB_TEXTEDIT_INSERTCHARS of the stored characters.
    method ReplaceChars(r: UndoRec, ghost e: Edit)
      requires Applicable(text, e) && ReadsAs(r, e) && StoredAt(r, e.removed)
      modifies this`text, this`cursor
      ensures text == Apply(old(text), e) && cursor == e.where + |e.removed|
    {
      text := text[..r.where] + text[r.where + r.deleteLength..];
      if r.insertLength > 0 {
        text := text[..r.where] + chars[r.charStorage..r.charStorage + r.insertLength] + text[r.where..];
      }
      cursor := r.where + r.insertLength;
    }

    // The newest undo record u, after its redo record has been saved: the record is still the
    // newest edit's and its characters are still in place.
    method MoveToRedo() returns (o: Outcome, u: UndoRec)
      requires LooseValid() && undoLog != []
      modifies this`redoPoint, this`redoCharPoint, this`redoLog, this`claims, rec, chars
      ensures ReadsAs(u, Last(undoLog))
      ensures var m := SaveSpace(old(claims), old(redoCharPoint), Size(undoLog), Last(undoLog).added);
        if m.Found? && !Applicable(text, Last(undoLog)) then o == Undefined
        else ComesTo(m, o, claims, redoCharPoint)
      ensures o.Done? ==> SlotClaimed() && StoredAt(u, Last(undoLog).removed)
      ensures o.Done? ==>
        UndoPart(rec[..], chars[..], undoPoint - 1, undoCharPoint - u.insertLength, Init(undoLog))
      ensures o.Stuck? ==> UndoValid() && RedoClaimed()
      ensures old(RedoInPlace()) && o.Done? ==>
        Topped(rec[..], chars[..], redoPoint - 1, redoCharPoint, redoLog, claims,
               BackOf(u), undoCharPoint, old(redoCharPoint), old(redoLog))
    {
      ghost var e, recs, cs := Last(undoLog), rec[..], chars[..];
      NewestUndo(recs, cs, undoLog);
      UndoStaysSound(LooseModel());
      u := rec[undoPoint - 1];
      o := SaveRedo(u);
      if o.Done? {
        SameWithin(recs, rec[..], 0, old(redoPoint) - 1, 0, undoPoint - 1);
        UndoPartKept(recs, cs, rec[..], chars[..], Init(undoLog));
        if u.insertLength > 0 {
          SameSlice(cs, chars[..], u.charStorage, e.removed);
        }
      } else if o.Stuck? {
        UndoPartKept(recs, cs, rec[..], chars[..], undoLog);
      }
    }

    // The same in terms of the values: the redo stack is the one after the undo, in place or,
    // when redo records had to make way, with the stale one on top.
    method MoveNewest() returns (o: Outcome, u: UndoRec)
      requires LooseValid() && undoLog != []
      modifies this`redoPoint, this`redoCharPoint, this`redoLog, this`claims, rec, chars
      ensures ReadsAs(u, Last(undoLog)) && o == UndoOnce(old(LooseModel())).0
      ensures o.Done? ==> SlotClaimed() && StoredAt(u, Last(undoLog).removed) && Applicable(text, Last(undoLog))
      ensures o.Done? ==>
        && UndoOnce(old(LooseModel())).1 == Loose(Apply(text, Last(undoLog)), Init(undoLog), claims, redoCharPoint)
        && UndoPart(rec[..], chars[..], undoPoint - 1, undoCharPoint - u.insertLength, Init(undoLog))
      ensures o.Stuck? ==> LooseValid() && LooseModel() == UndoOnce(old(LooseModel())).1
      ensures old(Valid()) && o.Done? && MustDiscard(old(Model())) ==>
        StalePart(rec[..], chars[..], redoPoint - 1, redoCharPoint,
                  AfterDiscardingUndo(old(Model())).stale, AfterDiscardingUndo(old(Model())).redo)
      ensures old(Valid()) && o.Done? && !MustDiscard(old(Model())) ==>
        && redoLog == AfterUndo(old(Model())).redo
        && InPlace(rec[..], chars[..], redoPoint - 1, redoCharPoint, redoLog, claims)
    {
      ghost var s, inPlace := Model(), Valid();
      UndoStaysSound(LooseModel());
      o, u := MoveToRedo();
      if inPlace && o.Done? {
        assert BackOf(u) == Inverse(text, Last(undoLog));
        ToppedIsAfterUndo(s, rec[..], chars[..], redoPoint - 1, redoCharPoint, redoLog, claims);
      }
    }

    // The second half of stb_text_undo: carries out undo record u and moves the points.
    method CarryOut(u: UndoRec, ghost inPlace: bool)
      requires SlotClaimed() && undoLog != [] && Applicable(text, Last(undoLog))
      requires ReadsAs(u, Last(undoLog)) && StoredAt(u, Last(undoLog).removed)
      requires UndoPart(rec[..], chars[..], undoPoint - 1, undoCharPoint - u.insertLength, Init(undoLog))
      requires inPlace ==> InPlace(rec[..], chars[..], redoPoint - 1, redoCharPoint, redoLog, claims)
      modifies this`text, this`cursor, this`undoPoint, this`undoCharPoint, this`redoPoint, this`undoLog
      ensures UndoValid() && RedoClaimed() && redoPoint == old(redoPoint) - 1
      ensures text == Apply(old(text), Last(old(undoLog))) && undoLog == Init(old(undoLog))
      ensures cursor == Last(old(undoLog)).where + |Last(old(undoLog)).removed|
      ensures inPlace ==> Valid()
    {
      ReplaceChars(u, Last(undoLog));
      undoCharPoint, undoPoint, redoPoint := undoCharPoint - u.insertLength, undoPoint - 1, redoPoint - 1;
      undoLog := Init(undoLog);
    }

    // stb_text_undo. At all times it takes the step UndoOnce. With every redo record in place
    // that is AfterUndo, or, when redo records have to make way, AfterDiscardingUndo: the next
    // redo record is then the stale one.
    method Undo() returns (o: Outcome)
      requires LooseValid()
      modifies this, rec, chars
      ensures o == UndoOnce(old(LooseModel())).0
      ensures o.Nothing? ==> unchanged(this, rec, chars)
      ensures !o.Undefined? ==> LooseValid() && LooseModel() == UndoOnce(old(LooseModel())).1
      ensures o.Done? ==> cursor == Last(old(undoLog)).where + |Last(old(undoLog)).removed|
      ensures old(Valid()) && o.Done? && MustDiscard(old(Model())) ==>
        StalePart(rec[..], chars[..], redoPoint, redoCharPoint,
                  AfterDiscardingUndo(old(Model())).stale, AfterDiscardingUndo(old(Model())).redo)
      ensures old(Valid()) && o.Done? && !MustDiscard(old(Model())) ==> Valid() && Model() == AfterUndo(old(Model()))
    {
      if undoPoint == 0 {
        return Nothing;
      }
      ghost var inPlace := Valid() && !MustDiscard(Model());
      UndoStaysSound(LooseModel());
      var u;
      o, u := MoveNewest();
      if o.Done? {
        CarryOut(u, inPlace);
      }
    }

    // The edit a redo puts on the undo stack; without room for the characters redo record r
    // deletes, both lengths are given up.
    ghost function ForthOf(r: UndoRec): Edit
      reads this
      requires Slot(r) && InText(r)
    {
      if r.deleteLength > 0 && undoCharPoint + r.deleteLength > redoCharPoint then Edit(r.where, [], 0)
      else Edit(r.where, text[r.where..r.where + r.deleteLength], r.insertLength)
    }

    // The first half of stb_text_redo: an undo record for redo record r.
    method SaveUndo(r: UndoRec) returns (defined: bool)
      requires UndoValid() && undoPoint < STATE_COUNT && Slot(r) && InText(r)
      modifies this`undoCharPoint, rec, chars
      ensures defined <==> old(undoCharPoint + |ForthOf(r).removed|) <= CHAR_COUNT
      ensures defined ==>
        && undoCharPoint == old(undoCharPoint) + |old(ForthOf(r)).removed| <= redoCharPoint
        && UndoPart(rec[..], chars[..], undoPoint + 1, undoCharPoint, undoLog + [old(ForthOf(r))])
        && rec[..] == old(rec[..])[undoPoint := rec[undoPoint]]
        && Written(old(chars[..]), chars[..], old(undoCharPoint), old(ForthOf(r)).removed)
    {
      ghost var recs, cs, forth := rec[..], chars[..], ForthOf(r);
      var u := UndoRec(r.where, r.deleteLength, r.insertLength, -1);
      if r.deleteLength > 0 {
        if undoCharPoint + u.insertLength > redoCharPoint {
          u := u.(insertLength := 0, deleteLength := 0);
        } else {
          if undoCharPoint + u.insertLength > CHAR_COUNT {
            return false;
          }
          u := u.(charStorage := undoCharPoint);
          SaveChars(chars, undoCharPoint, text, r.where, u.insertLength);
          undoCharPoint := undoCharPoint + u.insertLength;
        }
      }
      rec[undoPoint] := u;
      StackUndo(recs, cs, undoLog, forth, rec[..], chars[..]);
      defined := true;
    }

    // Where record r says its characters are, there are that many.
    predicate Readable(r: UndoRec) {
      r.insertLength > 0 ==> 0 <= r.charStorage && r.charStorage + r.insertLength <= CHAR_COUNT
    }

    // What record r inserts and deletes.
    ghost function EditOf(r: UndoRec): Edit
      reads chars
      requires chars.Length == CHAR_COUNT && Slot(r) && Readable(r)
    {
      Edit(r.where,
           if r.insertLength > 0 then chars[r.charStorage..r.charStorage + r.insertLength] else [],
           r.deleteLength)
    }

    // The first half of stb_text_redo as it leaves the redo side: the stack without record r,
    // and what r is found to insert.
    method TakeNext(r: UndoRec) returns (defined: bool)
      requires UndoValid() && RedoClaimed() && claims != [] && r == rec[redoPoint] && Slot(r) && InText(r)
      modifies this`undoCharPoint, rec, chars
      ensures defined <==> old(undoCharPoint + |ForthOf(r).removed|) <= CHAR_COUNT
      ensures defined ==>
        && undoCharPoint == old(undoCharPoint) + |old(ForthOf(r)).removed| <= redoCharPoint
        && UndoPart(rec[..], chars[..], undoPoint + 1, undoCharPoint, undoLog + [old(ForthOf(r))])
        && ClaimsPart(rec[..], redoPoint + 1, claims[1..])
      ensures old(RedoInPlace()) && defined ==>
        && redoLog != [] && Readable(r) && EditOf(r) == redoLog[0]
        && InPlace(rec[..], chars[..], redoPoint + 1, redoCharPoint + claims[0], redoLog[1..], claims[1..])
    {
      ghost var recs, cs, forth := rec[..], chars[..], ForthOf(r);
      defined := SaveUndo(r);
      if defined {
        WrittenElsewhere(cs, chars[..], undoCharPoint - |forth.removed|, forth.removed);
        SameWithin(cs, chars[..], undoCharPoint, CHAR_COUNT, redoCharPoint, CHAR_COUNT);
        NextTaken(recs, cs, redoPoint, redoCharPoint, redoLog, claims, rec[..], chars[..], undoPoint);
      }
    }

    // The second half of stb_text_redo: carries out redo record r and moves the points.
    method CarryOutRedo(r: UndoRec, ghost forth: Edit, ghost inPlace: bool)
      requires Shape() && redoPoint < STATE_COUNT && claims != [] && r.insertLength == claims[0]
      requires Slot(r) && Readable(r) && InText(r)
      requires UndoPart(rec[..], chars[..], undoPoint + 1, undoCharPoint, undoLog + [forth])
      requires ClaimsPart(rec[..], redoPoint + 1, claims[1..])
      requires inPlace ==> redoLog != []
      requires inPlace ==>
        InPlace(rec[..], chars[..], redoPoint + 1, redoCharPoint + claims[0], redoLog[1..], claims[1..])
      modifies this`text, this`cursor, this`undoPoint, this`redoPoint, this`redoCharPoint
      modifies this`undoLog, this`redoLog, this`claims
      ensures UndoValid() && RedoClaimed() && (inPlace ==> Valid() && redoLog == old(redoLog)[1..])
      ensures text == Apply(old(text), EditOf(r)) && cursor == r.where + r.insertLength
      ensures undoLog == old(undoLog) + [forth] && claims == old(claims)[1..]
      ensures redoCharPoint == old(redoCharPoint) + r.insertLength
    {
      ReplaceChars(r, EditOf(r));
      redoCharPoint, undoPoint, redoPoint := redoCharPoint + r.insertLength, undoPoint + 1, redoPoint + 1;
      undoLog, claims, redoLog := undoLog + [forth], claims[1..], if redoLog == [] then [] else redoLog[1..];
    }

    // Redoing the next record stays within the arrays and the text.
    ghost predicate RedoDefined()
      requires LooseValid() && claims != []
      reads this, rec, chars
    {
      var r := rec[redoPoint];
      && Slot(r) && InText(r) && Readable(r) && undoCharPoint + |ForthOf(r).removed| <= CHAR_COUNT
    }

    lemma InPlaceIsDefined()
      requires Valid() && redoLog != [] && Applicable(text, redoLog[0])
      ensures LooseValid() && claims != [] && RedoDefined()
    {
      ValidIsLoose();
      NextRedo(rec[..], chars[..], redoPoint, redoCharPoint, redoLog);
    }

    // stb_text_redo past its first test
    method RedoNext() returns (o: Outcome)
      requires LooseValid() && claims != []
      modifies this, rec, chars
      ensures o == if old(RedoDefined()) then Done else Undefined
      ensures o.Done? ==> LooseValid()
      ensures o.Done? ==> RedoneBy(old(LooseModel()), EditOf(old(rec[redoPoint])), LooseModel())
      ensures o.Done? ==> cursor == old(rec[redoPoint].where + rec[redoPoint].insertLength)
      ensures old(Valid()) && o.Done? ==> Valid() && old(redoLog) != []
      ensures old(Valid()) && o.Done? ==> EditOf(old(rec[redoPoint])) == old(redoLog)[0] && redoLog == old(redoLog)[1..]
    {
      ghost var inPlace := Valid();
      var r := rec[redoPoint];
      PopClaim(rec[..], redoPoint, claims);
      if r.where + r.deleteLength > |text| {
        return Undefined;
      }
      ghost var forth := ForthOf(r);
      var defined := TakeNext(r);
      if !defined || (r.insertLength > 0 && r.charStorage + r.insertLength > CHAR_COUNT) {
        return Undefined;
      }
      RedoStaysSound(old(LooseModel()), EditOf(r));
      CarryOutRedo(r, forth, inPlace);
      o := Done;
    }

    // stb_text_redo. Whatever the next record has come to, it inserts the characters found
    // where it says they are; with every record in place those are the characters saved.
    method Redo() returns (o: Outcome)
      requires LooseValid()
      modifies this, rec, chars
      ensures o == if old(claims) == [] then Nothing else if old(RedoDefined()) then Done else Undefined
      ensures o.Nothing? ==> unchanged(this, rec, chars)
      ensures o.Done? ==> LooseValid()
      ensures o.Done? ==> RedoneBy(old(LooseModel()), EditOf(old(rec[redoPoint])), LooseModel())
      ensures o.Done? ==> cursor == old(rec[redoPoint].where + rec[redoPoint].insertLength)
      ensures old(Valid() && redoLog != [] && Applicable(text, redoLog[0])) ==>
        o.Done? && Valid() && Model() == AfterRedo(old(Model()))
    {
      if redoPoint == STATE_COUNT {
        return Nothing;
      }
      ghost var s, inPlace := Model(), Valid() && redoLog != [] && Applicable(text, redoLog[0]);
      if inPlace {
        InPlaceIsDefined();
        ValidIsLoose();
        RedoIsLoose(s);
      }
      o := RedoNext();
    }
  }
}
