/** The Colour Filler game (src/components/ColorFillerGame.tsx): the picture
    catalog, the undo/redo history reducer, the component's event handlers and
    the completion effect, all as pure functions over values. */
module ColorFiller {
  import opened GameTypes

  /** A picture of the catalog: `positions[i].color` is the target colour. */
  datatype Image = Image(id: string, name: string, positions: seq<ColorPosition>)

  const Butterfly: Image := Image("butterfly", "Butterfly", [
    ColorPosition(100, 100, "#FF0000", "1"),
    ColorPosition(200, 100, "#00FF00", "2"),
    ColorPosition(300, 100, "#0000FF", "3"),
    ColorPosition(100, 200, "#FFFF00", "4"),
    ColorPosition(200, 200, "#FF00FF", "5")])

  const Flower: Image := Image("flower", "Flower", [
    ColorPosition(150, 150, "#FF1493", "1"),
    ColorPosition(250, 150, "#32CD32", "2"),
    ColorPosition(350, 150, "#4169E1", "3"),
    ColorPosition(150, 250, "#FFD700", "4"),
    ColorPosition(250, 250, "#8A2BE2", "5")])

  /** The fixed catalog, in the order the source lists it. */
  const Images: seq<Image> := [Butterfly, Flower]

  /** The reducer's actions. The clock reading of START_GAME and END_GAME and
      the random draw of REVEAL_HINT are carried by the action. */
  datatype Action =
    | SetColor(id: string, color: string)
    | Undo
    | Redo
    | StartGame(payload: seq<ColorPosition>, now: int)
    | EndGame(now: int)
    | RevealHint(pick: nat)

  const HistoryInitialState: HistoryState :=
    HistoryState([], GameState([], None, false, None, None), [])

  // ------------------------------------------------------------------------
  // Lookups (`find`, `some`, `filter`)

  predicate HasId(ps: seq<ColorPosition>, id: string)
  {
    exists p :: p in ps && p.id == id
  }

  /** `ps.find(p => p.id === id)`: the first position carrying `id`. */
  function FindPosition(ps: seq<ColorPosition>, id: string): (r: Option<ColorPosition>)
    ensures r.Some? ==> r.value in ps && r.value.id == id
  {
    if ps == [] then None
    else if ps[0].id == id then Some(ps[0])
    else FindPosition(ps[1..], id)
  }

  /** `find` fails only when no position carries the id, and otherwise
      returns the first one that does. */
  lemma {:induction false} FindPositionFirst(ps: seq<ColorPosition>, id: string)
    ensures FindPosition(ps, id).None? <==> !HasId(ps, id)
    ensures FindPosition(ps, id).Some? ==>
              exists k :: 0 <= k < |ps| && ps[k] == FindPosition(ps, id).value &&
                          forall j :: 0 <= j < k ==> ps[j].id != id
  {
    if ps != [] && ps[0].id != id {
      FindPositionFirst(ps[1..], id);
      var r := FindPosition(ps[1..], id);
      if r.Some? {
        var k :| 0 <= k < |ps[1..]| && ps[1..][k] == r.value &&
                 forall j :: 0 <= j < k ==> ps[1..][j].id != id;
        assert forall j :: 1 <= j < k + 1 ==> ps[j].id != id by {
          forall j | 1 <= j < k + 1 ensures ps[j].id != id { assert ps[j] == ps[1..][j - 1]; }
        }
      }
      if HasId(ps, id) {
        var p :| p in ps && p.id == id;
        assert p in ps[1..];
      }
    }
  }

  /** `images.find(img => img.positions.some(pos => pos.id === id))`. */
  function FindImageContaining(images: seq<Image>, id: string): (r: Option<Image>)
    ensures r.Some? ==> r.value in images && FindPosition(r.value.positions, id).Some?
  {
    if images == [] then None
    else if FindPosition(images[0].positions, id).Some? then Some(images[0])
    else FindImageContaining(images[1..], id)
  }

  /** The picture found is the first one holding the id. */
  lemma {:induction false} FindImageContainingFirst(images: seq<Image>, id: string)
    ensures FindImageContaining(images, id).Some? ==>
              exists k :: 0 <= k < |images| && images[k] == FindImageContaining(images, id).value &&
                          forall j :: 0 <= j < k ==> FindPosition(images[j].positions, id).None?
    ensures FindImageContaining(images, id).None? ==>
              forall img :: img in images ==> FindPosition(img.positions, id).None?
  {
    if images != [] && FindPosition(images[0].positions, id).None? {
      FindImageContainingFirst(images[1..], id);
      var r := FindImageContaining(images[1..], id);
      if r.Some? {
        var k :| 0 <= k < |images[1..]| && images[1..][k] == r.value &&
                 forall j :: 0 <= j < k ==> FindPosition(images[1..][j].positions, id).None?;
        assert forall j :: 1 <= j < k + 1 ==> FindPosition(images[j].positions, id).None? by {
          forall j | 1 <= j < k + 1 ensures FindPosition(images[j].positions, id).None? {
            assert images[j] == images[1..][j - 1];
          }
        }
      }
      assert forall img :: img in images && img != images[0] ==> img in images[1..];
    }
  }

  /** `images.find(img => img.id === imageId)`, where `imageId` may be null. */
  function FindImageById(images: seq<Image>, imageId: Option<string>): (r: Option<Image>)
    ensures r.Some? ==> r.value in images && imageId == Some(r.value.id)
    ensures r.None? <==> forall img :: img in images ==> imageId != Some(img.id)
  {
    if images == [] then None
    else if imageId == Some(images[0].id) then Some(images[0])
    else
      assert forall img :: img in images && img != images[0] ==> img in images[1..];
      FindImageById(images[1..], imageId)
  }

  /** `ps.filter(pos => !pos.color)`: the positions not painted yet, in order. */
  function Uncolored(ps: seq<ColorPosition>): (u: seq<ColorPosition>)
    ensures |u| <= |ps|
    ensures forall p :: p in u ==> p in ps && p.color == ""
    ensures forall p :: p in ps && p.color == "" ==> p in u
  {
    if ps == [] then []
    else
      assert forall p :: p in ps && p != ps[0] ==> p in ps[1..];
      if ps[0].color == "" then [ps[0]] + Uncolored(ps[1..]) else Uncolored(ps[1..])
  }

  /** The colour REVEAL_HINT paints on position `id`: the target colour of `id`
      in the FIRST picture of the catalog that has such a position, whichever
      picture is being played. */
  function HintColor(catalog: seq<Image>, id: string): Option<string>
  {
    match FindImageContaining(catalog, id)
    case None => None
    case Some(image) =>
      match FindPosition(image.positions, id)
      case None => None
      case Some(original) => Some(original.color)
  }

  /** A catalog whose positions all have an id and a target colour. */
  predicate WellFormedCatalog(catalog: seq<Image>)
  {
    forall image, p :: image in catalog && p in image.positions ==> p.id != "" && p.color != ""
  }

  lemma ImagesWellFormed()
    ensures WellFormedCatalog(Images)
  {
  }

  /** A hint colour is the target colour of a position of the catalog that
      carries the id; in a well-formed catalog it is never empty. */
  lemma HintColorIsTarget(catalog: seq<Image>, id: string)
    ensures HintColor(catalog, id).Some? ==>
              exists image, p :: image in catalog && p in image.positions &&
                                 p.id == id && p.color == HintColor(catalog, id).value
    ensures WellFormedCatalog(catalog) && HintColor(catalog, id).Some? ==> HintColor(catalog, id).value != ""
  {
    var image := FindImageContaining(catalog, id);
    if image.Some? {
      var original := FindPosition(image.value.positions, id);
      if original.Some? {
        assert image.value in catalog && original.value in image.value.positions;
      }
    }
  }

  // ------------------------------------------------------------------------
  // The reducer

  /** `positions.map(pos => pos.id === id ? { ...pos, color } : pos)`. */
  function Paint(ps: seq<ColorPosition>, id: string, color: string): seq<ColorPosition>
  {
    seq(|ps|, i requires 0 <= i < |ps| => if ps[i].id == id then ps[i].(color := color) else ps[i])
  }

  /** Push the present onto the past, install `next`, drop the future. */
  function Record(h: HistoryState, next: GameState): HistoryState
  {
    HistoryState(h.past + [h.present], next, [])
  }

  /** `gameReducer`, over the picture catalog `catalog` (the component passes
      `Images`). */
  function Reducer(catalog: seq<Image>, h: HistoryState, a: Action): HistoryState
  {
    match a
    case SetColor(id, color) =>
      Record(h, h.present.(positions := Paint(h.present.positions, id, color)))
    case Undo =>
      if |h.past| == 0 then h
      else HistoryState(h.past[..|h.past| - 1], h.past[|h.past| - 1], [h.present] + h.future)
    case Redo =>
      if |h.future| == 0 then h
      else HistoryState(h.past + [h.present], h.future[0], h.future[1..])
    case StartGame(payload, now) =>
      HistoryState([], GameState(payload, None, true, Some(now), None), [])
    case EndGame(now) =>
      h.(present := h.present.(endTime := Some(now), gameStarted := false))
    case RevealHint(pick) =>
      var uncolored := Uncolored(h.present.positions);
      if |uncolored| == 0 then h
      else
        var target := uncolored[pick % |uncolored|];
        match HintColor(catalog, target.id)
        case None => h
        case Some(c) => Record(h, h.present.(positions := Paint(h.present.positions, target.id, c)))
  }

  // ------------------------------------------------------------------------
  // History laws

  /** All snapshots of a history, oldest first. */
  function Frames(h: HistoryState): seq<GameState>
  {
    h.past + [h.present] + h.future
  }

  /** The history whose snapshots are `fs` and whose present is `fs[k]`. */
  function Cursor(fs: seq<GameState>, k: nat): (h: HistoryState)
    requires k < |fs|
    ensures Frames(h) == fs && |h.past| == k
  {
    assert fs[..k] + [fs[k]] + fs[k + 1..] == fs;
    HistoryState(fs[..k], fs[k], fs[k + 1..])
  }

  lemma CursorOfFrames(h: HistoryState)
    ensures Cursor(Frames(h), |h.past|) == h
  {
    var fs := Frames(h);
    assert fs[..|h.past|] == h.past;
    assert fs[|h.past| + 1..] == h.future;
  }

  /** UNDO moves the present one snapshot back and loses or duplicates no
      snapshot; on an empty past it returns the history unchanged. */
  lemma UndoConserves(catalog: seq<Image>, h: HistoryState)
    ensures Frames(Reducer(catalog, h, Undo)) == Frames(h)
    ensures |h.past| == 0 ==> Reducer(catalog, h, Undo) == h
    ensures |h.past| > 0 ==> Reducer(catalog, h, Undo) == Cursor(Frames(h), |h.past| - 1)
  {
    if |h.past| > 0 {
      var fs := Frames(h);
      var k := |h.past| - 1;
      assert h.past[..k] + [h.past[k]] == h.past;
      assert fs[..k] == h.past[..k];
      assert fs[k + 1..] == [h.present] + h.future;
    }
  }

  /** REDO moves the present one snapshot forward and loses or duplicates no
      snapshot; on an empty future it returns the history unchanged. */
  lemma RedoConserves(catalog: seq<Image>, h: HistoryState)
    ensures Frames(Reducer(catalog, h, Redo)) == Frames(h)
    ensures |h.future| == 0 ==> Reducer(catalog, h, Redo) == h
    ensures |h.future| > 0 ==> Reducer(catalog, h, Redo) == Cursor(Frames(h), |h.past| + 1)
  {
    if |h.future| > 0 {
      var fs := Frames(h);
      var k := |h.past| + 1;
      assert [h.future[0]] + h.future[1..] == h.future;
      assert fs[..k] == h.past + [h.present];
      assert fs[k + 1..] == h.future[1..];
    }
  }

  lemma UndoThenRedo(catalog: seq<Image>, h: HistoryState)
    requires |h.past| > 0
    ensures Reducer(catalog, Reducer(catalog, h, Undo), Redo) == h
  {
    UndoConserves(catalog, h);
    RedoConserves(catalog, Reducer(catalog, h, Undo));
    CursorOfFrames(h);
  }

  lemma RedoThenUndo(catalog: seq<Image>, h: HistoryState)
    requires |h.future| > 0
    ensures Reducer(catalog, Reducer(catalog, h, Redo), Undo) == h
  {
    RedoConserves(catalog, h);
    UndoConserves(catalog, Reducer(catalog, h, Redo));
    CursorOfFrames(h);
  }

  /** The history after dispatching `a` `n` times. */
  function Repeat(catalog: seq<Image>, h: HistoryState, a: Action, n: nat): HistoryState
    decreases n
  {
    if n == 0 then h else Repeat(catalog, Reducer(catalog, h, a), a, n - 1)
  }

  /** The history after dispatching `acts` in order. */
  function Run(catalog: seq<Image>, h: HistoryState, acts: seq<Action>): HistoryState
    decreases |acts|
  {
    if acts == [] then h else Run(catalog, Reducer(catalog, h, acts[0]), acts[1..])
  }

  lemma {:induction false} RepeatUndo(catalog: seq<Image>, fs: seq<GameState>, k: nat, n: nat)
    requires n <= k < |fs|
    ensures Repeat(catalog, Cursor(fs, k), Undo, n) == Cursor(fs, k - n)
    decreases n
  {
    if n > 0 {
      UndoConserves(catalog, Cursor(fs, k));
      RepeatUndo(catalog, fs, k - 1, n - 1);
    }
  }

  lemma {:induction false} RepeatRedo(catalog: seq<Image>, fs: seq<GameState>, k: nat, n: nat)
    requires k + n < |fs|
    ensures Repeat(catalog, Cursor(fs, k), Redo, n) == Cursor(fs, k + n)
    decreases n
  {
    if n > 0 {
      RedoConserves(catalog, Cursor(fs, k));
      RepeatRedo(catalog, fs, k + 1, n - 1);
    }
  }

  /** Colour assignments only ever append to the past and clear the future. */
  lemma {:induction false} RecordingRun(catalog: seq<Image>, h: HistoryState, acts: seq<Action>)
    requires forall a :: a in acts ==> a.SetColor?
    ensures acts != [] ==> Run(catalog, h, acts).future == []
    ensures |Run(catalog, h, acts).past| == |h.past| + |acts|
    ensures Frames(Run(catalog, h, acts))[..|h.past| + 1] == h.past + [h.present]
    decreases |acts|
  {
    if acts != [] {
      var h1 := Reducer(catalog, h, acts[0]);
      assert forall a :: a in acts[1..] ==> a in acts;
      RecordingRun(catalog, h1, acts[1..]);
      assert Frames(Run(catalog, h1, acts[1..]))[..|h1.past| + 1] == h1.past + [h1.present];
      assert h1.past == h.past + [h.present];
      assert Frames(Run(catalog, h, acts))[..|h.past| + 1] == (h1.past + [h1.present])[..|h.past| + 1];
    }
  }

  /** The round-trip law: after `n` colour assignments, `n` UNDOs restore the
      starting snapshot and past, and `n` REDOs then restore the final history. */
  lemma UndoAllRecorded(catalog: seq<Image>, h: HistoryState, acts: seq<Action>)
    requires forall a :: a in acts ==> a.SetColor?
    ensures var done := Run(catalog, h, acts);
            var back := Repeat(catalog, done, Undo, |acts|);
            back.past == h.past && back.present == h.present &&
            Repeat(catalog, back, Redo, |acts|) == done
  {
    var done := Run(catalog, h, acts);
    RecordingRun(catalog, h, acts);
    var fs := Frames(done);
    CursorOfFrames(done);
    RepeatUndo(catalog, fs, |done.past|, |acts|);
    assert fs[..|h.past| + 1] == h.past + [h.present];
    assert fs[..|h.past|] == (h.past + [h.present])[..|h.past|];
    assert fs[|h.past|] == (h.past + [h.present])[|h.past|];
    RepeatRedo(catalog, fs, |h.past|, |acts|);
  }

  // ------------------------------------------------------------------------
  // The individual actions

  /** SET_COLOR records a frame, drops the future, and repaints exactly the
      positions whose id is the payload id; nothing else changes. */
  lemma SetColorRecords(catalog: seq<Image>, h: HistoryState, id: string, color: string)
    ensures var h' := Reducer(catalog, h, SetColor(id, color));
            var ps, ps' := h.present.positions, h'.present.positions;
            h'.past == h.past + [h.present] && h'.future == [] &&
            h'.present.selectedColor == h.present.selectedColor &&
            h'.present.gameStarted == h.present.gameStarted &&
            h'.present.startTime == h.present.startTime &&
            h'.present.endTime == h.present.endTime &&
            |ps'| == |ps| &&
            (forall i :: 0 <= i < |ps| ==>
               ps'[i].id == ps[i].id && ps'[i].x == ps[i].x && ps'[i].y == ps[i].y &&
               (ps[i].id == id ==> ps'[i].color == color) &&
               (ps[i].id != id ==> ps'[i] == ps[i]))
  {
  }

  /** Painting an id no position carries changes nothing. */
  lemma PaintUnknownId(ps: seq<ColorPosition>, id: string, color: string)
    requires !HasId(ps, id)
    ensures Paint(ps, id, color) == ps
  {
    assert forall i :: 0 <= i < |ps| ==> ps[i] in ps;
  }

  /** SET_COLOR with an id no position carries (the empty id that colour
      selection sends) still records a frame and drops the future, but leaves
      every position as it was. */
  lemma SetColorUnknownIdOnlyRecords(catalog: seq<Image>, h: HistoryState, id: string, color: string)
    requires !HasId(h.present.positions, id)
    ensures Reducer(catalog, h, SetColor(id, color)) == HistoryState(h.past + [h.present], h.present, [])
  {
    PaintUnknownId(h.present.positions, id, color);
  }

  lemma StartGameResets(catalog: seq<Image>, h: HistoryState, payload: seq<ColorPosition>, now: int)
    ensures var h' := Reducer(catalog, h, StartGame(payload, now));
            h'.past == [] && h'.future == [] && h'.present.positions == payload &&
            h'.present.selectedColor == None && h'.present.gameStarted &&
            h'.present.startTime == Some(now) && h'.present.endTime == None
  {
  }

  lemma EndGameStops(catalog: seq<Image>, h: HistoryState, now: int)
    ensures var h' := Reducer(catalog, h, EndGame(now));
            h'.past == h.past && h'.future == h.future &&
            h'.present.positions == h.present.positions &&
            h'.present.selectedColor == h.present.selectedColor &&
            h'.present.startTime == h.present.startTime &&
            !h'.present.gameStarted && h'.present.endTime == Some(now)
  {
  }

  predicate DistinctIds(ps: seq<ColorPosition>)
  {
    forall i, j :: 0 <= i < j < |ps| ==> ps[i].id != ps[j].id
  }

  /** REVEAL_HINT with nothing left to paint is a no-op. */
  lemma HintWhenAllPainted(catalog: seq<Image>, h: HistoryState, pick: nat)
    requires forall p :: p in h.present.positions ==> p.color != ""
    ensures Reducer(catalog, h, RevealHint(pick)) == h
  {
  }

  /** With distinct ids, painting `id` changes exactly the one position `k`. */
  lemma PaintOne(ps: seq<ColorPosition>, k: nat, color: string)
    requires DistinctIds(ps) && k < |ps|
    ensures Paint(ps, ps[k].id, color) == ps[k := ps[k].(color := color)]
  {
  }

  /** REVEAL_HINT paints at most one position, and only one that was unpainted:
      a painted position, right or wrong, keeps its colour. When it changes
      anything it records a frame and drops the future. */
  lemma HintFillsOneUnpainted(catalog: seq<Image>, h: HistoryState, pick: nat)
    requires DistinctIds(h.present.positions)
    ensures var h' := Reducer(catalog, h, RevealHint(pick));
            var ps, ps' := h.present.positions, h'.present.positions;
            h' == h ||
            (h'.past == h.past + [h.present] && h'.future == [] &&
             h'.present == h.present.(positions := ps') &&
             exists k :: 0 <= k < |ps| && ps[k].color == "" &&
                         HintColor(catalog, ps[k].id) == Some(ps'[k].color) &&
                         ps' == ps[k := ps[k].(color := ps'[k].color)])
  {
    var ps := h.present.positions;
    var u := Uncolored(ps);
    if |u| > 0 {
      var target := u[pick % |u|];
      assert target in u;
      var c := HintColor(catalog, target.id);
      if c.Some? {
        var k :| 0 <= k < |ps| && ps[k] == target;
        PaintOne(ps, k, c.value);
      }
    }
  }

  lemma {:induction false} UncoloredAfterFill(ps: seq<ColorPosition>, k: nat, c: string)
    requires k < |ps| && ps[k].color == "" && c != ""
    ensures |Uncolored(ps[k := ps[k].(color := c)])| == |Uncolored(ps)| - 1
    decreases |ps|
  {
    var ps' := ps[k := ps[k].(color := c)];
    if k == 0 {
      assert ps'[1..] == ps[1..];
    } else {
      assert ps'[1..] == ps[1..][k - 1 := ps[k].(color := c)];
      UncoloredAfterFill(ps[1..], k - 1, c);
    }
  }

  /** Painting the hint colour onto the unpainted position `target` leaves one
      unpainted position fewer. */
  lemma HintPaintCount(catalog: seq<Image>, ps: seq<ColorPosition>, target: ColorPosition)
    requires WellFormedCatalog(catalog) && DistinctIds(ps)
    requires target in Uncolored(ps) && HintColor(catalog, target.id).Some?
    ensures |Uncolored(Paint(ps, target.id, HintColor(catalog, target.id).value))| == |Uncolored(ps)| - 1
  {
    var c := HintColor(catalog, target.id);
    var k :| 0 <= k < |ps| && ps[k] == target;
    PaintOne(ps, k, c.value);
    var image := FindImageContaining(catalog, target.id);
    assert FindPosition(image.value.positions, target.id).value in image.value.positions;
    UncoloredAfterFill(ps, k, c.value);
  }

  /** On a board whose ids all occur in a well-formed catalog, REVEAL_HINT
      paints one more position whenever one is unpainted, so hints run out after
      exactly as many uses as there are unpainted positions. */
  lemma HintProgress(catalog: seq<Image>, h: HistoryState, pick: nat)
    requires WellFormedCatalog(catalog) && DistinctIds(h.present.positions)
    requires forall p :: p in h.present.positions ==> HintColor(catalog, p.id).Some?
    requires |Uncolored(h.present.positions)| > 0
    ensures |Uncolored(Reducer(catalog, h, RevealHint(pick)).present.positions)| ==
            |Uncolored(h.present.positions)| - 1
    ensures Reducer(catalog, h, RevealHint(pick)).past == h.past + [h.present]
  {
    var ps := h.present.positions;
    var u := Uncolored(ps);
    var target := u[pick % |u|];
    assert target in u;
    var c := HintColor(catalog, target.id);
    HintPaintCount(catalog, ps, target);
    assert Reducer(catalog, h, RevealHint(pick)) == Record(h, h.present.(positions := Paint(ps, target.id, c.value)));
  }

  // ------------------------------------------------------------------------
  // Invariants of the reducer

  /** Every action but START_GAME keeps the old snapshots and adds at most the
      new present. */
  lemma FramesAfterStep(catalog: seq<Image>, h: HistoryState, a: Action)
    requires !a.StartGame?
    ensures forall f :: f in Frames(Reducer(catalog, h, a)) ==>
              f in Frames(h) || f == Reducer(catalog, h, a).present
  {
    var h' := Reducer(catalog, h, a);
    match a
    case Undo => UndoConserves(catalog, h);
    case Redo => RedoConserves(catalog, h);
    case SetColor(_, _) => RecordedFrames(h, h');
    case RevealHint(_) => RecordedFrames(h, h');
    case EndGame(_) =>
    case StartGame(_, _) =>
  }

  lemma RecordedFrames(h: HistoryState, h': HistoryState)
    requires h' == h || (h'.past == h.past + [h.present] && h'.future == [])
    ensures forall f :: f in Frames(h') ==> f in Frames(h) || f == h'.present
  {
  }

  predicate NoColorArmed(h: HistoryState)
  {
    forall f :: f in Frames(h) ==> f.selectedColor == None
  }

  /** No action ever arms a colour: `selectedColor` stays null in every snapshot. */
  lemma ReducerKeepsNoColorArmed(catalog: seq<Image>, h: HistoryState, a: Action)
    requires NoColorArmed(h)
    ensures NoColorArmed(Reducer(catalog, h, a))
  {
    assert h.present in Frames(h);
    if !a.StartGame? {
      FramesAfterStep(catalog, h, a);
    }
  }

  function Ids(ps: seq<ColorPosition>): seq<string>
  {
    seq(|ps|, i requires 0 <= i < |ps| => ps[i].id)
  }

  /** Every snapshot carries the ids `ids`, in this order. */
  predicate IdsAre(h: HistoryState, ids: seq<string>)
  {
    forall f :: f in Frames(h) ==> Ids(f.positions) == ids
  }

  /** Only START_GAME changes which ids the snapshots carry. */
  lemma ReducerKeepsIds(catalog: seq<Image>, h: HistoryState, a: Action, ids: seq<string>)
    requires IdsAre(h, ids) && !a.StartGame?
    ensures IdsAre(Reducer(catalog, h, a), ids)
  {
    assert h.present in Frames(h);
    FramesAfterStep(catalog, h, a);
  }

  /** Every snapshot position has an id, and is unpainted or painted with the
      hint colour of its id. */
  predicate HintPaintedOnly(catalog: seq<Image>, h: HistoryState)
  {
    forall f, p :: f in Frames(h) && p in f.positions ==>
      p.id != "" && (p.color == "" || HintColor(catalog, p.id) == Some(p.color))
  }

  /** Hints and SET_COLOR with the empty id keep every colour a hint colour. */
  lemma ReducerKeepsHintPainted(catalog: seq<Image>, h: HistoryState, a: Action)
    requires HintPaintedOnly(catalog, h) && !a.StartGame? && (a.SetColor? ==> a.id == "")
    ensures HintPaintedOnly(catalog, Reducer(catalog, h, a))
  {
    var h' := Reducer(catalog, h, a);
    var ps := h.present.positions;
    assert h.present in Frames(h);
    FramesAfterStep(catalog, h, a);
    forall p | p in h'.present.positions
      ensures p.id != "" && (p.color == "" || HintColor(catalog, p.id) == Some(p.color))
    {
      if a.SetColor? {
        assert !HasId(ps, "");
        PaintUnknownId(ps, "", a.color);
      } else if a.RevealHint? && h' != h {
        var i :| 0 <= i < |h'.present.positions| && h'.present.positions[i] == p;
        assert ps[i] in ps;
      }
    }
  }

  // ------------------------------------------------------------------------
  // The component: its own state, its event handlers and its completion effect

  /** The component state around the reducer: the chosen picture and whether
      the target colours are being previewed. */
  datatype ColorFillerGame = ColorFillerGame(history: HistoryState, selectedImage: Option<string>, showPreview: bool)

  const InitialGame: ColorFillerGame := ColorFillerGame(HistoryInitialState, None, true)

  /** `positions.map(pos => ({ ...pos, color: '' }))`. */
  function Blank(ps: seq<ColorPosition>): (r: seq<ColorPosition>)
    ensures |r| == |ps|
    ensures forall i :: 0 <= i < |ps| ==> r[i] == ps[i].(color := "")
  {
    seq(|ps|, i requires 0 <= i < |ps| => ps[i].(color := ""))
  }

  /** The user events the component reacts to. */
  datatype Event =
    | SelectImage(imageId: string, now: int)   // handleImageSelect
    | PreviewOver                              // the preview timeout, or the Start button
    | SelectColor(color: string)               // handleColorSelect
    | ClickPosition(id: string)                // handlePositionClick
    | AskHint(pick: nat)                       // handleHint
    | ClickUndo
    | ClickRedo
    | ClickReset                               // the controls' reset: forget the picture

  function HandleImageSelect(catalog: seq<Image>, g: ColorFillerGame, imageId: string, now: int): ColorFillerGame
  {
    match FindImageById(catalog, Some(imageId))
    case None => g
    case Some(image) =>
      ColorFillerGame(Reducer(catalog, g.history, StartGame(Blank(image.positions), now)), Some(imageId), true)
  }

  function HandleColorSelect(catalog: seq<Image>, g: ColorFillerGame, color: string): ColorFillerGame
  {
    if !g.history.present.gameStarted then g
    else g.(history := Reducer(catalog, g.history, SetColor("", color)))
  }

  function HandlePositionClick(catalog: seq<Image>, g: ColorFillerGame, id: string): ColorFillerGame
  {
    var present := g.history.present;
    if !TruthyString(present.selectedColor) || !present.gameStarted then g
    else g.(history := Reducer(catalog, g.history, SetColor(id, present.selectedColor.value)))
  }

  function Handle(catalog: seq<Image>, g: ColorFillerGame, e: Event): ColorFillerGame
  {
    match e
    case SelectImage(imageId, now) => HandleImageSelect(catalog, g, imageId, now)
    case PreviewOver => g.(showPreview := false)
    case SelectColor(color) => HandleColorSelect(catalog, g, color)
    case ClickPosition(id) => HandlePositionClick(catalog, g, id)
    case AskHint(pick) => g.(history := Reducer(catalog, g.history, RevealHint(pick)))
    case ClickUndo => g.(history := Reducer(catalog, g.history, Undo))
    case ClickRedo => g.(history := Reducer(catalog, g.history, Redo))
    case ClickReset => g.(selectedImage := None)
  }

  /** Choosing a picture of the catalog starts a fresh game on its blanked
      positions; an unknown picture id changes nothing. */
  lemma ImageSelectStarts(catalog: seq<Image>, g: ColorFillerGame, imageId: string, now: int)
    ensures var g' := HandleImageSelect(catalog, g, imageId, now);
            match FindImageById(catalog, Some(imageId))
            case None => g' == g
            case Some(image) =>
              g'.selectedImage == Some(imageId) && g'.showPreview &&
              g'.history.past == [] && g'.history.future == [] &&
              g'.history.present == GameState(Blank(image.positions), None, true, Some(now), None)
  {
  }

  /** Selecting a colour arms nothing: while a game runs it records a frame
      that repeats the present and drops the future, and otherwise it does
      nothing. */
  lemma ColorSelectOnlyRecords(catalog: seq<Image>, g: ColorFillerGame, color: string)
    requires !HasId(g.history.present.positions, "")
    ensures var g' := HandleColorSelect(catalog, g, color);
            var h := g.history;
            if h.present.gameStarted
            then g' == g.(history := HistoryState(h.past + [h.present], h.present, []))
            else g' == g
  {
    SetColorUnknownIdOnlyRecords(catalog, g.history, "", color);
  }

  predicate AllPainted(ps: seq<ColorPosition>)
  {
    forall p :: p in ps ==> p.color != ""
  }

  /** `originalPos?.color === pos.color` for the picture `image` (maybe none). */
  predicate MatchesTarget(image: Option<Image>, p: ColorPosition)
  {
    image.Some? && FindPosition(image.value.positions, p.id).Some? &&
    FindPosition(image.value.positions, p.id).value.color == p.color
  }

  predicate AllCorrect(image: Option<Image>, ps: seq<ColorPosition>)
  {
    forall p :: p in ps ==> MatchesTarget(image, p)
  }

  /** The completion effect: when the started, unfinished game has every
      position painted with its target colour, END_GAME is dispatched and the
      elapsed time is reported (the second component). */
  function CompletionEffect(catalog: seq<Image>, g: ColorFillerGame, now: int): (ColorFillerGame, Option<int>)
  {
    var present := g.history.present;
    if !present.gameStarted || Truthy(present.endTime) then (g, None)
    else if !AllPainted(present.positions) then (g, None)
    else if !AllCorrect(FindImageById(catalog, g.selectedImage), present.positions) then (g, None)
    else (g.(history := Reducer(catalog, g.history, EndGame(now))), Some(now - OrZero(present.startTime)))
  }

  /** The game completes exactly when it is running, not yet finished, and
      every position is painted with its target colour. Running the effect
      again on the state it produced reports nothing. */
  lemma CompletionCondition(catalog: seq<Image>, g: ColorFillerGame, now: int, later: int)
    ensures var (g', reported) := CompletionEffect(catalog, g, now);
            var present := g.history.present;
            (reported.Some? <==>
               present.gameStarted && !Truthy(present.endTime) && AllPainted(present.positions) &&
               AllCorrect(FindImageById(catalog, g.selectedImage), present.positions)) &&
            (reported.Some? ==>
               reported.value == now - OrZero(present.startTime) &&
               g' == g.(history := Reducer(catalog, g.history, EndGame(now))) &&
               CompletionEffect(catalog, g', later).1.None?) &&
            (reported.None? ==> g' == g)
  {
  }

  /** Completion can be reported twice. END_GAME changes only the present, so
      after a win reached by a hint, UNDO brings back the running snapshot
      before the hint. The same hint then rebuilds the winning snapshot with
      the game still running, and the effect reports again, timed from the
      same start. */
  lemma UndoReplayReReports(catalog: seq<Image>, g: ColorFillerGame, pick: nat, now: int, later: int)
    requires Handle(catalog, g, AskHint(pick)).history != g.history
    requires CompletionEffect(catalog, Handle(catalog, g, AskHint(pick)), now).1.Some?
    ensures var won := CompletionEffect(catalog, Handle(catalog, g, AskHint(pick)), now).0;
            var replayed := Handle(catalog, Handle(catalog, won, ClickUndo), AskHint(pick));
            replayed.history.present == Handle(catalog, g, AskHint(pick)).history.present &&
            CompletionEffect(catalog, replayed, later).1 ==
              Some(later - OrZero(g.history.present.startTime))
  {
    var h := g.history;
    var hinted := Handle(catalog, g, AskHint(pick));
    var ps := h.present.positions;
    var u := Uncolored(ps);
    assert |u| > 0;
    var target := u[pick % |u|];
    var c := HintColor(catalog, target.id);
    assert c.Some?;
    var next := h.present.(positions := Paint(ps, target.id, c.value));
    assert hinted.history == Record(h, next);
    var won := CompletionEffect(catalog, hinted, now).0;
    assert won.history.past == h.past + [h.present];
    var undone := Handle(catalog, won, ClickUndo);
    assert undone.history.present == h.present;
    assert undone.selectedImage == g.selectedImage;
    var replayed := Handle(catalog, undone, AskHint(pick));
    assert replayed.history.present == next;
  }

  /** A board with one wrong colour never completes, even when it is full. */
  lemma WrongColorNeverCompletes(catalog: seq<Image>, g: ColorFillerGame, now: int, p: ColorPosition)
    requires p in g.history.present.positions
    requires !MatchesTarget(FindImageById(catalog, g.selectedImage), p)
    ensures CompletionEffect(catalog, g, now) == (g, None)
  {
  }

  // ------------------------------------------------------------------------
  // What every reachable component state satisfies

  /** The invariant of the reachable component states: no colour is armed,
      every colour was painted by a hint, and while a picture is chosen every
      snapshot carries exactly that picture's ids. */
  predicate Reachable(catalog: seq<Image>, g: ColorFillerGame)
  {
    NoColorArmed(g.history) && HintPaintedOnly(catalog, g.history) &&
    (g.selectedImage.Some? ==>
       FindImageById(catalog, g.selectedImage).Some? &&
       IdsAre(g.history, Ids(FindImageById(catalog, g.selectedImage).value.positions)))
  }

  lemma InitialReachable(catalog: seq<Image>)
    ensures Reachable(catalog, InitialGame)
  {
    assert Frames(InitialGame.history) == [InitialGame.history.present];
  }

  /** A reducer step other than START_GAME, and SET_COLOR only with the empty
      id, keeps the invariant. */
  lemma ReducerStepKeepsReachable(catalog: seq<Image>, g: ColorFillerGame, a: Action)
    requires Reachable(catalog, g) && !a.StartGame? && (a.SetColor? ==> a.id == "")
    ensures Reachable(catalog, g.(history := Reducer(catalog, g.history, a)))
  {
    ReducerKeepsNoColorArmed(catalog, g.history, a);
    ReducerKeepsHintPainted(catalog, g.history, a);
    if g.selectedImage.Some? {
      ReducerKeepsIds(catalog, g.history, a, Ids(FindImageById(catalog, g.selectedImage).value.positions));
    }
  }

  /** Every event keeps the invariant. */
  lemma HandleKeepsReachable(catalog: seq<Image>, g: ColorFillerGame, e: Event)
    requires WellFormedCatalog(catalog) && Reachable(catalog, g)
    ensures Reachable(catalog, Handle(catalog, g, e))
  {
    assert g.history.present in Frames(g.history);
    match e
    case SelectImage(imageId, now) =>
      var image := FindImageById(catalog, Some(imageId));
      if image.Some? {
        var g' := HandleImageSelect(catalog, g, imageId, now);
        assert Frames(g'.history) == [g'.history.present];
        forall p | p in g'.history.present.positions ensures p.id != "" && p.color == "" {
          var i :| 0 <= i < |g'.history.present.positions| && g'.history.present.positions[i] == p;
          assert image.value.positions[i] in image.value.positions;
        }
      }
    case SelectColor(color) =>
      if g.history.present.gameStarted {
        ReducerStepKeepsReachable(catalog, g, SetColor("", color));
      }
    case ClickPosition(id) =>
    case AskHint(pick) => ReducerStepKeepsReachable(catalog, g, RevealHint(pick));
    case ClickUndo => ReducerStepKeepsReachable(catalog, g, Undo);
    case ClickRedo => ReducerStepKeepsReachable(catalog, g, Redo);
    case PreviewOver =>
    case ClickReset =>
  }

  /** The completion effect keeps the invariant. */
  lemma CompletionKeepsReachable(catalog: seq<Image>, g: ColorFillerGame, now: int)
    requires Reachable(catalog, g)
    ensures Reachable(catalog, CompletionEffect(catalog, g, now).0)
  {
    ReducerStepKeepsReachable(catalog, g, EndGame(now));
  }

  /** In every reachable state a position click dispatches nothing: no colour
      is ever armed. */
  lemma PositionClickIgnored(catalog: seq<Image>, g: ColorFillerGame, id: string)
    requires Reachable(catalog, g)
    ensures HandlePositionClick(catalog, g, id) == g
  {
    assert g.history.present in Frames(g.history);
  }

  /** A picture whose first position's target differs from the hint colour of
      its id can never be completed in a reachable state: that position is
      either unpainted or painted with the hint colour. */
  lemma HintMismatchNeverCompletes(catalog: seq<Image>, g: ColorFillerGame, now: int, image: Image)
    requires Reachable(catalog, g) && FindImageById(catalog, g.selectedImage) == Some(image)
    requires |image.positions| > 0 && image.positions[0].color != ""
    requires HintColor(catalog, image.positions[0].id) != Some(image.positions[0].color)
    ensures CompletionEffect(catalog, g, now).1 == None
  {
    var ps := g.history.present.positions;
    assert g.history.present in Frames(g.history);
    assert Ids(ps) == Ids(image.positions);
    assert |ps| == |Ids(ps)|;
    assert ps[0].id == Ids(ps)[0] == image.positions[0].id;
    assert ps[0] in ps;
    assert !MatchesTarget(Some(image), ps[0]);
  }

  /** Both pictures use the ids "1" to "5". */
  lemma CatalogIds(id: string)
    requires HasId(Flower.positions, id) || HasId(Butterfly.positions, id)
    ensures id == "1" || id == "2" || id == "3" || id == "4" || id == "5"
  {
    if HasId(Flower.positions, id) {
      var p :| p in Flower.positions && p.id == id;
    } else {
      var p :| p in Butterfly.positions && p.id == id;
    }
  }

  /** Every hint colour is the Butterfly target, whichever picture is played. */
  lemma HintColorFromButterfly(id: string)
    requires HasId(Flower.positions, id) || HasId(Butterfly.positions, id)
    ensures FindImageContaining(Images, id) == Some(Butterfly)
    ensures HintColor(Images, id) == Some(FindPosition(Butterfly.positions, id).value.color)
  {
    CatalogIds(id);
    ButterflyHint(id);
  }

  lemma ButterflyHint(id: string)
    requires id == "1" || id == "2" || id == "3" || id == "4" || id == "5"
    ensures FindPosition(Butterfly.positions, id).Some?
    ensures FindImageContaining(Images, id) == Some(Butterfly)
    ensures HintColor(Images, id) == Some(FindPosition(Butterfly.positions, id).value.color)
  {
    var ps := Butterfly.positions;
    var i := if id == "1" then 0 else if id == "2" then 1 else if id == "3" then 2 else if id == "4" then 3 else 4;
    assert ps[i] in ps && ps[i].id == id;
    FindPositionFirst(ps, id);
    assert Images[0] == Butterfly;
  }

  /** With distinct ids, looking up the id of position `i` finds position `i`. */
  lemma FindPositionAt(ps: seq<ColorPosition>, i: nat)
    requires DistinctIds(ps) && i < |ps|
    ensures FindPosition(ps, ps[i].id) == Some(ps[i])
  {
    assert ps[i] in ps;
    FindPositionFirst(ps, ps[i].id);
  }

  lemma CatalogDistinctIds()
    ensures DistinctIds(Butterfly.positions) && DistinctIds(Flower.positions)
  {
  }

  /** On the Flower picture every hint paints the wrong colour. */
  lemma FlowerHintsWrong(id: string)
    requires HasId(Flower.positions, id)
    ensures FindPosition(Flower.positions, id).Some?
    ensures HintColor(Images, id) != Some(FindPosition(Flower.positions, id).value.color)
  {
    CatalogIds(id);
    ButterflyHint(id);
    CatalogDistinctIds();
    var i := if id == "1" then 0 else if id == "2" then 1 else if id == "3" then 2 else if id == "4" then 3 else 4;
    FindPositionAt(Flower.positions, i);
    FindPositionAt(Butterfly.positions, i);
  }

  /** A game on the Flower picture can never be completed: hints paint
      Butterfly colours, and no colour is ever armed to paint anything else. */
  lemma FlowerNeverCompletes(g: ColorFillerGame, now: int)
    requires Reachable(Images, g) && g.selectedImage == Some("flower")
    ensures CompletionEffect(Images, g, now).1 == None
  {
    assert FindImageById(Images, g.selectedImage) == Some(Flower);
    HintColorFromButterfly("1");
    HintMismatchNeverCompletes(Images, g, now, Flower);
  }
}
