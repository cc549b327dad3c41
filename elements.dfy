/**
 * The whiteboard element record and the operations of client/src/helper/element.js:
 * hit-testing, bounding-box normalisation, translation, duplication, deletion,
 * field update by id, layer reordering and resize-handle arithmetic.
 *
 * Coordinates are exact reals. The helpers that hand an updater or a new array to
 * `setState` are modelled by the snapshot they produce; committing it is the
 * business of UseHistory.History.SetState.
 */
module Elements {
  import opened Wrappers
  import opened Sequences

  datatype Tool = Pen | Line | Arrow | Rectangle | Diamond | Circle

  datatype Point = Point(x: real, y: real)

  /** Style attributes the geometry never reads (strokeWidth aside). */
  datatype Style = Style(strokeColor: string, strokeStyle: string, fill: string, opacity: real)

  /** One drawn shape; `points` is present for pen strokes only. */
  datatype Element = Element(
    id: string,
    tool: Tool,
    x1: real, y1: real, x2: real, y2: real,
    strokeWidth: real,
    points: Option<seq<Point>>,
    style: Style)

  /** The canvas: array order is z-order, later elements are drawn on top. */
  type Snapshot = seq<Element>

  /** The partial record spread over an element by `updateElement`: the coordinate
      and `points` keys its callers (and `resizeValue`) supply. */
  datatype Patch = Patch(
    x1: Option<real>, y1: Option<real>, x2: Option<real>, y2: Option<real>,
    points: Option<seq<Point>>)

  /** The record `adjustCoordinates` returns. */
  datatype Anchors = Anchors(id: string, x1: real, y1: real, x2: real, y2: real)

  /** The hit test of the tools whose test needs Euclidean distance (pen, line,
      arrow, circle); supplied by the caller. */
  type CurveTest = (real, real, Element) -> bool

  function Min(a: real, b: real): real { if a <= b then a else b }

  function Max(a: real, b: real): real { if a >= b then a else b }

  function Abs(a: real): real { if a < 0.0 then -a else a }

  /** `minmax(value, [lo, hi])`: `value` clamped into the interval. */
  function Minmax(value: real, interval: (real, real)): (r: real)
    ensures interval.0 <= interval.1 ==> interval.0 <= r <= interval.1
    ensures interval.0 <= value <= interval.1 ==> r == value
    ensures value < interval.0 ==> r == interval.0
    ensures interval.0 <= interval.1 < value ==> r == interval.1
    ensures interval.1 < interval.0 ==> r == interval.0
  {
    Max(Min(value, interval.1), interval.0)
  }

  // ---------------------------------------------------------------------------
  // Lookup by id
  // ---------------------------------------------------------------------------

  /** `state.findIndex(e => e.id == id)`: the first position holding `id`, or -1. */
  function FindIndex(s: Snapshot, id: string): (r: int)
    ensures -1 <= r < |s|
    ensures r >= 0 ==> s[r].id == id && forall j :: 0 <= j < r ==> s[j].id != id
    ensures r == -1 <==> forall j :: 0 <= j < |s| ==> s[j].id != id
    decreases |s|
  {
    if s == [] then -1
    else if s[0].id == id then 0
    else
      var k := FindIndex(s[1..], id);
      if k == -1 then -1 else k + 1
  }

  /** `elements?.find(e => e.id == id)`: an undefined canvas (None) answers undefined. */
  function GetElementById(id: string, elements: Option<Snapshot>): (r: Option<Element>)
    ensures elements.None? ==> r.None?
    ensures elements.Some? ==>
      (r.None? <==> forall j :: 0 <= j < |elements.value| ==> elements.value[j].id != id)
    ensures r.Some? ==>
      elements.Some? && r.value.id == id &&
      exists k :: 0 <= k < |elements.value| && elements.value[k] == r.value &&
        forall j :: 0 <= j < k ==> elements.value[j].id != id
  {
    match elements
    case None => None
    case Some(s) =>
      var k := FindIndex(s, id);
      if k == -1 then None else Some(s[k])
  }

  // ---------------------------------------------------------------------------
  // Hit-testing
  // ---------------------------------------------------------------------------

  /** `isWithinElement`: rectangles and diamonds are hit inside their corner box grown
      by half the stroke width on every side, whichever corners x1/x2 and y1/y2 are. */
  function IsWithinElement(x: real, y: real, e: Element, curve: CurveTest): (r: bool)
    ensures (e.tool == Rectangle || e.tool == Diamond) ==>
      var h := e.strokeWidth / 2.0;
      (r <==> (e.x1 - h <= x || e.x2 - h <= x) && (x <= e.x1 + h || x <= e.x2 + h) &&
              (e.y1 - h <= y || e.y2 - h <= y) && (y <= e.y1 + h || y <= e.y2 + h))
    ensures !(e.tool == Rectangle || e.tool == Diamond) ==> r == curve(x, y, e)
  {
    match e.tool
    case Rectangle | Diamond =>
      var minX := Min(e.x1, e.x2) - e.strokeWidth / 2.0;
      var maxX := Max(e.x1, e.x2) + e.strokeWidth / 2.0;
      var minY := Min(e.y1, e.y2) - e.strokeWidth / 2.0;
      var maxY := Max(e.y1, e.y2) + e.strokeWidth / 2.0;
      x >= minX && x <= maxX && y >= minY && y <= maxY
    case _ => curve(x, y, e)
  }

  /** Every point of a box element's own box is a hit when the stroke width is not negative. */
  lemma BoxInteriorIsHit(x: real, y: real, e: Element, curve: CurveTest)
    requires e.tool == Rectangle || e.tool == Diamond
    requires e.strokeWidth >= 0.0
    requires Min(e.x1, e.x2) <= x <= Max(e.x1, e.x2) && Min(e.y1, e.y2) <= y <= Max(e.y1, e.y2)
    ensures IsWithinElement(x, y, e, curve)
  {
  }

  /** `getElementPosition`: the topmost element under the point, if any. */
  function GetElementPosition(x: real, y: real, elements: Snapshot, curve: CurveTest): (r: Option<Element>)
    ensures r.Some? ==> r.value in elements && IsWithinElement(x, y, r.value, curve)
  {
    var hits := Filter(elements, e => IsWithinElement(x, y, e, curve));
    if hits == [] then None else Some(hits[|hits| - 1])
  }

  /** The element found is the last one in z-order whose test passes; none is found
      exactly when no test passes. */
  lemma {:induction false} GetElementPositionIsTopmost(x: real, y: real, elements: Snapshot, curve: CurveTest)
    ensures GetElementPosition(x, y, elements, curve).None? <==>
      forall i :: 0 <= i < |elements| ==> !IsWithinElement(x, y, elements[i], curve)
    ensures GetElementPosition(x, y, elements, curve).Some? ==>
      exists i :: 0 <= i < |elements| && elements[i] == GetElementPosition(x, y, elements, curve).value &&
        IsWithinElement(x, y, elements[i], curve) &&
        forall j :: i < j < |elements| ==> !IsWithinElement(x, y, elements[j], curve)
  {
    var p := e => IsWithinElement(x, y, e, curve);
    FilterLast(elements, p);
    assert forall i :: 0 <= i < |elements| ==> (p(elements[i]) <==> IsWithinElement(x, y, elements[i], curve));
  }

  // ---------------------------------------------------------------------------
  // Bounding-box normalisation
  // ---------------------------------------------------------------------------

  /** `adjustCoordinates`: lines and arrows keep their directed endpoints; every other
      tool gets its corners reordered so that x1 <= x2 and y1 <= y2. */
  function AdjustCoordinates(e: Element): (r: Anchors)
    ensures r.id == e.id
    ensures (e.tool == Line || e.tool == Arrow) ==> r == Anchors(e.id, e.x1, e.y1, e.x2, e.y2)
    ensures !(e.tool == Line || e.tool == Arrow) ==>
      r.x1 <= r.x2 && r.y1 <= r.y2 &&
      multiset{r.x1, r.x2} == multiset{e.x1, e.x2} && multiset{r.y1, r.y2} == multiset{e.y1, e.y2}
  {
    if e.tool == Line || e.tool == Arrow then Anchors(e.id, e.x1, e.y1, e.x2, e.y2)
    else Anchors(e.id, Min(e.x1, e.x2), Min(e.y1, e.y2), Max(e.x1, e.x2), Max(e.y1, e.y2))
  }

  /** The patch the caller builds from `adjustCoordinates` to write it back. */
  function AnchorsPatch(a: Anchors): Patch {
    Patch(Some(a.x1), Some(a.y1), Some(a.x2), Some(a.y2), None)
  }

  /** Normalising an element that was already normalised changes nothing. */
  lemma AdjustCoordinatesIdempotent(e: Element)
    ensures AdjustCoordinates(ApplyPatch(e, AnchorsPatch(AdjustCoordinates(e)))) == AdjustCoordinates(e)
  {
  }

  /** Normalisation does not move a box element's hit area. */
  lemma AdjustCoordinatesKeepsHitArea(x: real, y: real, e: Element, curve: CurveTest)
    requires e.tool == Rectangle || e.tool == Diamond
    ensures IsWithinElement(x, y, ApplyPatch(e, AnchorsPatch(AdjustCoordinates(e))), curve) ==
            IsWithinElement(x, y, e, curve)
  {
  }

  // ---------------------------------------------------------------------------
  // Field update by id
  // ---------------------------------------------------------------------------

  /** `{ ...element, ...stateOption }`: the keys present in the patch win. */
  function ApplyPatch(e: Element, p: Patch): (r: Element)
    ensures r.id == e.id && r.tool == e.tool && r.strokeWidth == e.strokeWidth && r.style == e.style
    ensures r.x1 == p.x1.GetOr(e.x1) && r.y1 == p.y1.GetOr(e.y1)
    ensures r.x2 == p.x2.GetOr(e.x2) && r.y2 == p.y2.GetOr(e.y2)
    ensures r.points == if p.points.Some? then p.points else e.points
  {
    e.(x1 := p.x1.GetOr(e.x1), y1 := p.y1.GetOr(e.y1),
       x2 := p.x2.GetOr(e.x2), y2 := p.y2.GetOr(e.y2),
       points := if p.points.Some? then p.points else e.points)
  }

  /** `updateElement`: a copy of the array whose first element carrying `id` has the
      patch spread over it; every other position keeps its element. When no element
      carries `id` the JavaScript writes to the array's "-1" property, which is not an
      element, so the copy equals the input. */
  method UpdateElement(id: string, patch: Patch, state: Snapshot) returns (next: Snapshot)
    ensures |next| == |state|
    ensures forall i :: 0 <= i < |state| && state[i].id != id ==> next[i] == state[i]
    ensures FindIndex(state, id) == -1 ==> next == state
    ensures FindIndex(state, id) >= 0 ==>
      var k := FindIndex(state, id);
      next[k] == ApplyPatch(state[k], patch) &&
      forall i :: 0 <= i < |state| && i != k ==> next[i] == state[i]
  {
    var index := FindIndex(state, id);
    var stateCopy := new Element[|state|](i requires 0 <= i < |state| => state[i]);
    if index >= 0 {
      stateCopy[index] := ApplyPatch(stateCopy[index], patch);
    }
    next := stateCopy[..];
  }

  // ---------------------------------------------------------------------------
  // Translation
  // ---------------------------------------------------------------------------

  /** `points.map(p => ({ x: p.x + dx, y: p.y + dy }))`. */
  function ShiftPoints(ps: seq<Point>, dx: real, dy: real): (r: seq<Point>)
    ensures |r| == |ps|
    ensures forall i :: 0 <= i < |ps| ==> r[i] == Point(ps[i].x + dx, ps[i].y + dy)
    decreases |ps|
  {
    if ps == [] then [] else [Point(ps[0].x + dx, ps[0].y + dy)] + ShiftPoints(ps[1..], dx, dy)
  }

  /** `moveElement(element, factorX, factorY = null)`: the anchors move by
      (factorX, factorY ?? factorX); a pen stroke that has points moves every point
      the same way; nothing else changes. */
  function MoveElement(e: Element, factorX: real, factorY: Option<real>): (r: Element)
    ensures var dy := factorY.GetOr(factorX);
      r.x1 == e.x1 + factorX && r.x2 == e.x2 + factorX && r.y1 == e.y1 + dy && r.y2 == e.y2 + dy
    ensures r.id == e.id && r.tool == e.tool && r.strokeWidth == e.strokeWidth && r.style == e.style
    ensures (e.tool == Pen && e.points.Some?) ==>
      r.points.Some? && |r.points.value| == |e.points.value| &&
      forall i :: 0 <= i < |e.points.value| ==>
        r.points.value[i] == Point(e.points.value[i].x + factorX, e.points.value[i].y + factorY.GetOr(factorX))
    ensures !(e.tool == Pen && e.points.Some?) ==> r.points == e.points
  {
    var dy := factorY.GetOr(factorX);
    var moved := e.(x1 := e.x1 + factorX, y1 := e.y1 + dy, x2 := e.x2 + factorX, y2 := e.y2 + dy);
    if e.tool == Pen && e.points.Some? then moved.(points := Some(ShiftPoints(e.points.value, factorX, dy)))
    else moved
  }

  lemma {:induction false} ShiftPointsAdditive(ps: seq<Point>, a: real, b: real, c: real, d: real)
    ensures ShiftPoints(ShiftPoints(ps, a, b), c, d) == ShiftPoints(ps, a + c, b + d)
    decreases |ps|
  {
    if ps != [] {
      ShiftPointsAdditive(ps[1..], a, b, c, d);
      assert ShiftPoints(ps, a, b)[1..] == ShiftPoints(ps[1..], a, b);
    }
  }

  lemma {:induction false} ShiftPointsZero(ps: seq<Point>)
    ensures ShiftPoints(ps, 0.0, 0.0) == ps
    decreases |ps|
  {
    if ps != [] {
      ShiftPointsZero(ps[1..]);
      assert ps == [ps[0]] + ps[1..];
    }
  }

  /** Translation is additive, pen points included. */
  lemma MoveElementAdditive(e: Element, a: real, b: real, c: real, d: real)
    ensures MoveElement(MoveElement(e, a, Some(b)), c, Some(d)) == MoveElement(e, a + c, Some(b + d))
  {
    if e.tool == Pen && e.points.Some? {
      ShiftPointsAdditive(e.points.value, a, b, c, d);
    }
  }

  /** Translating by zero is the identity. */
  lemma MoveElementZero(e: Element)
    ensures MoveElement(e, 0.0, None) == e
  {
    if e.tool == Pen && e.points.Some? {
      ShiftPointsZero(e.points.value);
    }
  }

  /** `arrowMove(s_element, x, y, setState)`: no commit without a selected element;
      otherwise every element carrying the selected id is translated by (x, y). */
  function ArrowMove(selected: Option<Element>, x: real, y: real, prev: Snapshot): (r: Option<Snapshot>)
    ensures r.None? <==> selected.None?
    ensures r.Some? ==> |r.value| == |prev|
    ensures r.Some? ==> forall i :: 0 <= i < |prev| ==>
      r.value[i] == if prev[i].id == selected.value.id then MoveElement(prev[i], x, Some(y)) else prev[i]
  {
    match selected
    case None => None
    case Some(s) =>
      Some(seq(|prev|, i requires 0 <= i < |prev| =>
        if prev[i].id == s.id then MoveElement(prev[i], x, Some(y)) else prev[i]))
  }

  /** Two arrow-key nudges of the same selection add up to one nudge by the sum. */
  lemma ArrowMoveAdditive(selected: Element, a: real, b: real, c: real, d: real, prev: Snapshot)
    ensures ArrowMove(Some(selected), c, d, ArrowMove(Some(selected), a, b, prev).value) ==
            ArrowMove(Some(selected), a + c, b + d, prev)
  {
    var once := ArrowMove(Some(selected), a, b, prev).value;
    var twice := ArrowMove(Some(selected), c, d, once).value;
    var direct := ArrowMove(Some(selected), a + c, b + d, prev).value;
    forall i | 0 <= i < |prev| ensures twice[i] == direct[i] {
      if prev[i].id == selected.id {
        assert once[i] == MoveElement(prev[i], a, Some(b));
        MoveElementAdditive(prev[i], a, b, c, d);
      } else {
        assert once[i] == prev[i];
      }
    }
    assert twice == direct;
  }

  // ---------------------------------------------------------------------------
  // Deletion and duplication
  // ---------------------------------------------------------------------------

  /** `deleteElement(s_element, ...)`: no commit without a selected element; otherwise
      every element carrying the selected id is filtered out. */
  function DeleteElement(selected: Option<Element>, prev: Snapshot): (r: Option<Snapshot>)
    ensures r.None? <==> selected.None?
    ensures r.Some? ==> |r.value| <= |prev| && forall e :: e in r.value ==> e in prev && e.id != selected.value.id
  {
    match selected
    case None => None
    case Some(s) => Some(Filter(prev, (e: Element) => e.id != s.id))
  }

  /** Deletion removes exactly the elements carrying the id and keeps the others, in order. */
  lemma DeleteElementRemovesExactly(selected: Element, prev: Snapshot)
    ensures var r := DeleteElement(Some(selected), prev).value;
      IsSubsequence(r, prev) &&
      forall e :: multiset(r)[e] == if e.id != selected.id then multiset(prev)[e] else 0
  {
    var p := (e: Element) => e.id != selected.id;
    FilterIsSubsequence(prev, p);
    forall e ensures multiset(Filter(prev, p))[e] == if e.id != selected.id then multiset(prev)[e] else 0 {
      FilterCount(prev, p, e);
    }
  }

  /** The copy `duplicateElement` makes: moved by `factor` on both axes, with the new id. */
  function Duplicate(e: Element, factor: real, newId: string): (r: Element)
    ensures r.id == newId
    ensures r.(id := e.id) == MoveElement(e, factor, None)
  {
    MoveElement(e, factor, None).(id := newId)
  }

  /** `prevState.map(e => e.id == id ? [e, copy] : e).flat()`. */
  function DuplicateAfter(s: Snapshot, id: string, factor: real, newId: string): (r: Snapshot)
    ensures |r| >= |s|
    ensures (forall j :: 0 <= j < |s| ==> s[j].id != id) ==> r == s
    decreases |s|
  {
    if s == [] then []
    else
      var init, last := s[..|s| - 1], s[|s| - 1];
      var front := DuplicateAfter(init, id, factor, newId);
      if last.id == id then front + [last, Duplicate(last, factor, newId)]
      else (assert s == init + [last]; front + [last])
  }

  /** `duplicateElement(s_element, setState, setSelected, factor)`: no commit without a
      selected element; the newId id stands for the `uuid()` call. */
  function DuplicateElement(selected: Option<Element>, factor: real, newId: string, prev: Snapshot): (r: Option<Snapshot>)
    requires forall e :: e in prev ==> e.id != newId
    ensures r.None? <==> selected.None?
    ensures r.Some? ==> |r.value| >= |prev|
  {
    match selected
    case None => None
    case Some(s) => Some(DuplicateAfter(prev, s.id, factor, newId))
  }

  lemma {:induction false} DuplicateAfterOnce(s: Snapshot, k: nat, factor: real, newId: string)
    requires k < |s|
    requires forall j :: 0 <= j < |s| && j != k ==> s[j].id != s[k].id
    ensures DuplicateAfter(s, s[k].id, factor, newId) ==
      s[..k + 1] + [Duplicate(s[k], factor, newId)] + s[k + 1..]
    decreases |s|
  {
    var init, last := s[..|s| - 1], s[|s| - 1];
    var id := s[k].id;
    var copy := Duplicate(s[k], factor, newId);
    if k == |s| - 1 {
      assert forall j :: 0 <= j < |init| ==> init[j].id != id by {
        forall j | 0 <= j < |init| ensures init[j].id != id {
          assert init[j] == s[j];
        }
      }
      assert s[..k + 1] == s;
      assert s[k + 1..] == [];
    } else {
      assert init[k] == s[k];
      assert last.id != id;
      assert forall j :: 0 <= j < |init| && j != k ==> init[j].id != init[k].id by {
        forall j | 0 <= j < |init| && j != k ensures init[j].id != init[k].id {
          assert init[j] == s[j];
        }
      }
      DuplicateAfterOnce(init, k, factor, newId);
      var front := DuplicateAfter(init, id, factor, newId);
      assert DuplicateAfter(s, id, factor, newId) == front + [last];
      assert s[..k + 1] == init[..k + 1];
      assert s[k + 1..] == init[k + 1..] + [last];
      assert front + [last] == init[..k + 1] + [copy] + (init[k + 1..] + [last]);
    }
  }

  /** With the selected id present exactly once, duplication grows the canvas by one:
      the original stays put, the copy follows it directly with a new id and shifted
      coordinates, and the rest keeps its order. */
  lemma DuplicateElementInsertsCopy(selected: Element, prev: Snapshot, k: nat, factor: real, newId: string)
    requires k < |prev| && selected.id == prev[k].id
    requires forall j :: 0 <= j < |prev| && j != k ==> prev[j].id != prev[k].id
    requires forall e :: e in prev ==> e.id != newId
    ensures var r := DuplicateElement(Some(selected), factor, newId, prev).value;
      |r| == |prev| + 1 &&
      r[..k + 1] == prev[..k + 1] && r[k + 2..] == prev[k + 1..] &&
      r[k + 1].id != prev[k].id && r[k + 1] == MoveElement(prev[k], factor, None).(id := newId)
  {
    DuplicateAfterOnce(prev, k, factor, newId);
    var r := DuplicateElement(Some(selected), factor, newId, prev).value;
    assert r == prev[..k + 1] + [Duplicate(prev[k], factor, newId)] + prev[k + 1..];
    assert prev[k] in prev;
  }

  /** A copy made with factor 0 equals the original except for its id. */
  lemma DuplicateZeroFactor(e: Element, newId: string)
    ensures Duplicate(e, 0.0, newId) == e.(id := newId)
  {
    MoveElementZero(e);
  }

  // ---------------------------------------------------------------------------
  // Layer reordering
  // ---------------------------------------------------------------------------

  /** The insertion index `moveElementLayer` computes for the element found at `index`
      of an array of length `len`: one step up (1), one step down (-1), the bottom (0),
      the top (2), each step clamped at the ends; any other code leaves it in place. */
  function LayerTarget(index: int, to: int, len: int): (d: int)
    ensures 0 <= index < len ==> 0 <= d < len
    ensures to == 0 ==> d == 0
    ensures to == 2 ==> d == len - 1
    ensures to == 1 ==> d == if index < len - 1 then index + 1 else index
    ensures to == -1 ==> d == if index > 0 then index - 1 else index
    ensures to !in {-1, 0, 1, 2} ==> d == index
  {
    if to == 1 && index < len - 1 then index + 1
    else if to == -1 && index > 0 then index - 1
    else if to == 0 then 0
    else if to == 2 then len - 1
    else index
  }

  /** `moveElementLayer(id, to, setState, state)` for a known id: the element is spliced
      out and reinserted at its target; an unknown id leaves the canvas unchanged (see
      MoveElementLayerAsWritten for what element.js does then). */
  method MoveElementLayer(id: string, to: int, state: Snapshot) returns (next: Snapshot)
    ensures |next| == |state| && multiset(next) == multiset(state)
    ensures FindIndex(state, id) == -1 ==> next == state
    ensures FindIndex(state, id) >= 0 ==>
      var k := FindIndex(state, id);
      var d := LayerTarget(k, to, |state|);
      0 <= d < |state| && next[d] == state[k] &&
      next[..d] + next[d + 1..] == state[..k] + state[k + 1..]
    ensures FindIndex(state, id) >= 0 ==>
      var k := FindIndex(state, id);
      (to == 0 ==> next[0] == state[k]) &&
      (to == 2 ==> next[|state| - 1] == state[k]) &&
      (to == 1 ==> next[if k < |state| - 1 then k + 1 else k] == state[k]) &&
      (to == -1 ==> next[if k > 0 then k - 1 else k] == state[k]) &&
      (to !in {-1, 0, 1, 2} ==> next == state)
  {
    var index := FindIndex(state, id);
    if index < 0 {
      return state;
    }
    var replace := state[index];
    var stateCopy := state[..index] + state[index + 1..];

    var toReplaceIndex := LayerTarget(index, to, |state|);
    var firstPart := stateCopy[..toReplaceIndex];
    var lastPart := stateCopy[toReplaceIndex..];
    next := firstPart + [replace] + lastPart;
    assert next == Reinserted(state, index, toReplaceIndex);
    LayerMove(state, index, to);
  }

  function Reinserted(state: Snapshot, k: nat, d: nat): Snapshot
    requires k < |state| && d < |state|
  {
    var rest := state[..k] + state[k + 1..];
    rest[..d] + [state[k]] + rest[d..]
  }

  /** The reinsertion `moveElementLayer` performs for the element at `k`. */
  lemma LayerMove(state: Snapshot, k: nat, to: int)
    requires k < |state|
    ensures var d := LayerTarget(k, to, |state|);
      var next := Reinserted(state, k, d);
      0 <= d < |state| && |next| == |state| && multiset(next) == multiset(state) &&
      next[d] == state[k] && next[..d] + next[d + 1..] == state[..k] + state[k + 1..]
    ensures var next := Reinserted(state, k, LayerTarget(k, to, |state|));
      (to == 0 ==> next[0] == state[k]) &&
      (to == 2 ==> next[|state| - 1] == state[k]) &&
      (to == 1 ==> next[if k < |state| - 1 then k + 1 else k] == state[k]) &&
      (to == -1 ==> next[if k > 0 then k - 1 else k] == state[k]) &&
      (to !in {-1, 0, 1, 2} ==> next == state)
  {
    Reinsert(state, k, LayerTarget(k, to, |state|));
  }

  /** Splicing position `k` out and inserting it back at `d` permutes the array, puts
      the element at `d`, keeps the others in order, and is the identity when d == k. */
  lemma Reinsert(state: Snapshot, k: nat, d: nat)
    requires k < |state| && d < |state|
    ensures |Reinserted(state, k, d)| == |state|
    ensures multiset(Reinserted(state, k, d)) == multiset(state)
    ensures Reinserted(state, k, d)[d] == state[k]
    ensures Reinserted(state, k, d)[..d] + Reinserted(state, k, d)[d + 1..] == state[..k] + state[k + 1..]
    ensures d == k ==> Reinserted(state, k, d) == state
  {
    var rest := state[..k] + state[k + 1..];
    var next := rest[..d] + [state[k]] + rest[d..];
    assert rest == rest[..d] + rest[d..];
    assert state == state[..k] + [state[k]] + state[k + 1..];
    assert next[..d] + next[d + 1..] == rest;
    assert next[d] == state[k];
    assert multiset(rest) == multiset(rest[..d]) + multiset(rest[d..]);
    assert multiset(rest) == multiset(state[..k]) + multiset(state[k + 1..]);
    assert multiset(state) == multiset(state[..k]) + multiset{state[k]} + multiset(state[k + 1..]);
    assert multiset(next) == multiset(rest[..d]) + multiset{state[k]} + multiset(rest[d..]);
    assert multiset(next) == multiset(rest) + multiset{state[k]};
    assert next == Reinserted(state, k, d);
    if d == k {
      assert rest[..d] == state[..k];
      assert rest[d..] == state[k + 1..];
      assert next == state;
    }
  }

  /** JavaScript's reading of a relative index for `slice` and `splice`: negative
      indices count from the end; the result is clamped into [0, len]. */
  function RelativeIndex(i: int, len: nat): (r: nat)
    ensures r <= len
    ensures 0 <= i <= len ==> r == i
    ensures i < 0 && len + i >= 0 ==> r == len + i
    ensures i > len ==> r == len
    ensures len + i < 0 ==> r == 0
  {
    if i < 0 then (if len + i < 0 then 0 else len + i)
    else if i > len then len
    else i
  }

  /** Each element as a present array entry. */
  function Lift(s: Snapshot): (r: seq<Option<Element>>)
    ensures |r| == |s| && forall i :: 0 <= i < |s| ==> r[i] == Some(s[i])
  {
    seq(|s|, i requires 0 <= i < |s| => Some(s[i]))
  }

  lemma LiftAppend(a: Snapshot, b: Snapshot)
    ensures Lift(a + b) == Lift(a) + Lift(b)
  {
  }

  lemma LiftSlice(s: Snapshot, i: nat, j: nat)
    requires i <= j <= |s|
    ensures Lift(s)[i..j] == Lift(s[i..j])
  {
  }

  /** The array as the history's validation sees it: undefined entries dropped. */
  function Present(s: seq<Option<Element>>): (r: Snapshot)
    ensures |r| <= |s|
    decreases |s|
  {
    if s == [] then []
    else Present(s[..|s| - 1]) + (if s[|s| - 1].Some? then [s[|s| - 1].value] else [])
  }

  lemma {:induction false} PresentAppend(a: seq<Option<Element>>, b: seq<Option<Element>>)
    ensures Present(a + b) == Present(a) + Present(b)
    decreases |b|
  {
    if b == [] {
      assert a + b == a;
    } else {
      var b' := b[..|b| - 1];
      PresentAppend(a, b');
      assert (a + b)[..|a + b| - 1] == a + b';
    }
  }

  lemma {:induction false} PresentLift(s: Snapshot)
    ensures Present(Lift(s)) == s
    decreases |s|
  {
    if s != [] {
      PresentLift(s[..|s| - 1]);
      assert Lift(s)[..|s| - 1] == Lift(s[..|s| - 1]);
      assert s == s[..|s| - 1] + [s[|s| - 1]];
    }
  }

  /** `a.splice(i, 1)` on a copy: the entry at the relative index `i` is removed; an
      index at or past the end removes nothing. */
  function SpliceOne(a: seq<Option<Element>>, i: int): (r: seq<Option<Element>>)
    ensures 0 <= i < |a| ==> r == a[..i] + a[i + 1..]
    ensures i == -1 && a != [] ==> r == a[..|a| - 1]
    ensures -|a| <= i < |a| ==> |r| == |a| - 1
    ensures a == [] ==> r == []
  {
    var start := RelativeIndex(i, |a|);
    if start < |a| then a[..start] + a[start + 1..] else a
  }

  /** `[...a.slice(0, i), x, ...a.slice(i)]`: `x` inserted at the relative index `i`. */
  function InsertAt(a: seq<Option<Element>>, i: int, x: Option<Element>): (r: seq<Option<Element>>)
    ensures |r| == |a| + 1
    ensures 0 <= i <= |a| ==> r == a[..i] + [x] + a[i..]
  {
    var cut := RelativeIndex(i, |a|);
    a[..cut] + [x] + a[cut..]
  }

  /** An undefined entry inserted anywhere is invisible to validation. */
  lemma PresentInsertNone(a: seq<Option<Element>>, i: int)
    ensures Present(InsertAt(a, i, None)) == Present(a)
  {
    var cut := RelativeIndex(i, |a|);
    var front, back := a[..cut], a[cut..];
    assert InsertAt(a, i, None) == (front + [None]) + back;
    PresentAppend(front + [None], back);
    PresentAppend(front, [None]);
    assert Present([None]) == Present([]);
    PresentAppend(front, back);
    assert front + back == a;
  }

  /** `moveElementLayer` as written, with `undefined` entries as None. When the id is
      missing, `findIndex` gives -1, `stateCopy[-1]` is undefined and `splice(-1, 1)`
      removes the LAST element. */
  function MoveElementLayerAsWritten(id: string, to: int, state: Snapshot): (r: seq<Option<Element>>)
    ensures |r| == if state == [] then 1 else |state|
  {
    var index := FindIndex(state, id);
    var replace := if index >= 0 then Some(state[index]) else None;
    InsertAt(SpliceOne(Lift(state), index), LayerTarget(index, to, |state|), replace)
  }

  /** With an unknown id the JavaScript's result, once the history drops its undefined
      entry, has lost the topmost element. */
  lemma UnknownIdDropsTopmost(id: string, to: int, state: Snapshot)
    requires state != []
    requires forall j :: 0 <= j < |state| ==> state[j].id != id
    ensures Present(MoveElementLayerAsWritten(id, to, state)) == state[..|state| - 1]
  {
    var len := |state|;
    assert FindIndex(state, id) == -1;
    var spliced := SpliceOne(Lift(state), -1);
    assert spliced == Lift(state)[..len - 1];
    LiftSlice(state, 0, len - 1);
    assert state[0..len - 1] == state[..len - 1];
    assert MoveElementLayerAsWritten(id, to, state) == InsertAt(spliced, LayerTarget(-1, to, len), None);
    PresentInsertNone(spliced, LayerTarget(-1, to, len));
    PresentLift(state[..len - 1]);
  }

  /** For instance: on [a, b] with an id neither carries, any reorder leaves only [a]. */
  lemma UnknownIdExample(a: Element, b: Element, to: int)
    requires a.id == "a" && b.id == "b"
    ensures Present(MoveElementLayerAsWritten("c", to, [a, b])) == [a]
  {
    UnknownIdDropsTopmost("c", to, [a, b]);
  }

  lemma LiftSpliceOne(s: Snapshot, k: nat)
    requires k < |s|
    ensures SpliceOne(Lift(s), k) == Lift(s[..k] + s[k + 1..])
  {
    LiftSlice(s, 0, k);
    LiftSlice(s, k + 1, |s|);
    assert s[0..k] == s[..k] && s[k + 1..|s|] == s[k + 1..];
    LiftAppend(s[..k], s[k + 1..]);
  }

  lemma LiftInsertAt(s: Snapshot, d: nat, x: Element)
    requires d <= |s|
    ensures InsertAt(Lift(s), d, Some(x)) == Lift(s[..d] + [x] + s[d..])
  {
    LiftSlice(s, 0, d);
    LiftSlice(s, d, |s|);
    assert s[0..d] == s[..d] && s[d..|s|] == s[d..];
    assert [Some(x)] == Lift([x]);
    LiftAppend(s[..d], [x]);
    LiftAppend(s[..d] + [x], s[d..]);
  }

  /** On an id the canvas carries, element.js and MoveElementLayer agree: the
      JavaScript's result is the reinsertion, with every entry present. */
  lemma MoveElementLayerAsWrittenOnKnownId(id: string, to: int, state: Snapshot)
    requires FindIndex(state, id) >= 0
    ensures var k := FindIndex(state, id);
      MoveElementLayerAsWritten(id, to, state) == Lift(Reinserted(state, k, LayerTarget(k, to, |state|)))
  {
    var k := FindIndex(state, id);
    var d := LayerTarget(k, to, |state|);
    var rest := state[..k] + state[k + 1..];
    assert MoveElementLayerAsWritten(id, to, state) == InsertAt(SpliceOne(Lift(state), k), d, Some(state[k]));
    LiftSpliceOne(state, k);
    LiftInsertAt(rest, d, state[k]);
  }

  // ---------------------------------------------------------------------------
  // Resize handles
  // ---------------------------------------------------------------------------

  /** The handle being dragged: box edges and corners, or a line's endpoints. */
  datatype Corner = TT | BB | RR | LL | TL | TR | BL | BR | L1 | L2

  /** `"default"`, or the proportional mode used while shift is held. */
  datatype ResizeMode = Default | ShiftKey

  /** `getPadding(condition)`. */
  function Pad(condition: bool, padding: real): (r: real)
    ensures condition ==> r == padding
    ensures !condition ==> r + padding == 0.0
  {
    if condition then padding else -padding
  }

  /** `getType(y, coordinate, originalCoordinate, eleOffset, te)`: the current value in
      default mode; otherwise the drag-start value moved by the pointer's travel. */
  function Follow(mode: ResizeMode, y: real, coordinate: real, originalCoordinate: real,
                  eleOffset: real, te: bool): (r: real)
    ensures mode == Default ==> r == originalCoordinate
    ensures mode == ShiftKey && te ==> r + (coordinate - y) == eleOffset
    ensures mode == ShiftKey && !te ==> r - (coordinate - y) == eleOffset
  {
    if mode == Default then originalCoordinate
    else
      var def := coordinate - y;
      if te then eleOffset - def else eleOffset + def
  }

  /** `resizeValue(corner, type, x, y, padding, element, offset, elementOffset)`: the
      coordinates to overwrite while a handle follows the cursor (x, y). A dragged box
      edge lands `padding` from the cursor, towards the anchor while the cursor is
      before it and away from it otherwise. `offset` is the pointer position when the
      drag began and `original` the element at that moment. */
  function ResizeValue(corner: Corner, mode: ResizeMode, x: real, y: real, padding: real,
                       element: Element, offset: Point, original: Element): (r: Patch)
    ensures r.points.None?
    ensures corner == BR ==> r.x1.None? && r.y1.None? && r.x2.Some? && r.y2.Some?
    ensures corner == TL ==> r.x1.Some? && r.y1.Some? && r.x2.None? && r.y2.None?
    ensures corner == TR ==> r.x2.Some? && r.y1.Some? && r.x1.None? && r.y2.None?
    ensures corner == BL ==> r.x1.Some? && r.y2.Some? && r.x2.None? && r.y1.None?
    ensures corner == BB ==> r == Patch(None, None, None, r.y2, None) && r.y2.Some?
    ensures corner == RR ==> r == Patch(None, None, r.x2, None, None) && r.x2.Some?
    ensures corner == LL ==> r == Patch(r.x1, None, None, None, None) && r.x1.Some?
    ensures corner == L1 ==> r == Patch(Some(x), Some(y), None, None, None)
    ensures corner == L2 ==> r == Patch(None, None, Some(x), Some(y), None)
    ensures corner == TT ==> r.x1.Some? && r.y1.Some? && r.x2.Some? && r.y2.Some?
    ensures corner == TT && mode == Default ==>
      r.y2 == Some(element.y2) && r.x1 == Some(element.x1) && r.x2 == Some(element.x2)
    ensures corner == TT && mode == ShiftKey ==>
      var def := offset.y - y;
      r.x1 == Some(original.x1 - def) && r.x2 == Some(original.x2 + def) && r.y2 == Some(original.y2 + def)
    // a dragged edge lands `padding` past the cursor towards the opposite edge while the
    // cursor is before that edge, and `padding` back from it otherwise
    ensures (corner == LL || corner == TL || corner == BL) ==> r.x1 == Some(x + if x < element.x2 then padding else -padding)
    ensures (corner == RR || corner == TR || corner == BR) ==> r.x2 == Some(x + if x < element.x1 then padding else -padding)
    ensures (corner == TT || corner == TL || corner == TR) ==> r.y1 == Some(y + if y < element.y2 then padding else -padding)
    ensures (corner == BB || corner == BL || corner == BR) ==> r.y2 == Some(y + if y < element.y1 then padding else -padding)
    ensures r.x1.Some? && corner != TT && corner != L1 ==> Abs(r.x1.value - x) == Abs(padding)
    ensures r.x2.Some? && corner != TT && corner != L2 ==> Abs(r.x2.value - x) == Abs(padding)
    ensures r.y1.Some? && corner != L1 ==> Abs(r.y1.value - y) == Abs(padding)
    ensures r.y2.Some? && corner != TT && corner != L2 ==> Abs(r.y2.value - y) == Abs(padding)
  {
    match corner
    case TT => Patch(Some(Follow(mode, y, offset.y, element.x1, original.x1, true)),
                     Some(y + Pad(y < element.y2, padding)),
                     Some(Follow(mode, y, offset.y, element.x2, original.x2, false)),
                     Some(Follow(mode, y, offset.y, element.y2, original.y2, false)), None)
    case BB => Patch(None, None, None, Some(y + Pad(y < element.y1, padding)), None)
    case RR => Patch(None, None, Some(x + Pad(x < element.x1, padding)), None, None)
    case LL => Patch(Some(x + Pad(x < element.x2, padding)), None, None, None, None)
    case TL => Patch(Some(x + Pad(x < element.x2, padding)), Some(y + Pad(y < element.y2, padding)), None, None, None)
    case TR => Patch(None, Some(y + Pad(y < element.y2, padding)), Some(x + Pad(x < element.x1, padding)), None, None)
    case BL => Patch(Some(x + Pad(x < element.x2, padding)), None, None, Some(y + Pad(y < element.y1, padding)), None)
    case BR => Patch(None, None, Some(x + Pad(x < element.x1, padding)), Some(y + Pad(y < element.y1, padding)), None)
    case L1 => Patch(Some(x), Some(y), None, None, None)
    case L2 => Patch(None, None, Some(x), Some(y), None)
  }

  /** Dragging the bottom-right handle anchors the top-left corner, and the new corner
      is pulled `padding` towards the anchor while the cursor is before it. */
  lemma ResizeBottomRightAnchorsTopLeft(mode: ResizeMode, x: real, y: real, padding: real,
                                        e: Element, offset: Point, original: Element)
    ensures var r := ApplyPatch(e, ResizeValue(BR, mode, x, y, padding, e, offset, original));
      r.x1 == e.x1 && r.y1 == e.y1 &&
      r.x2 == (if x < e.x1 then x + padding else x - padding) &&
      r.y2 == (if y < e.y1 then y + padding else y - padding)
  {
  }

  /** A line endpoint handle puts exactly that endpoint under the cursor. */
  lemma ResizeLineEndpoint(mode: ResizeMode, x: real, y: real, padding: real,
                           e: Element, offset: Point, original: Element)
    ensures var r := ApplyPatch(e, ResizeValue(L1, mode, x, y, padding, e, offset, original));
      r.x1 == x && r.y1 == y && r.x2 == e.x2 && r.y2 == e.y2
    ensures var r := ApplyPatch(e, ResizeValue(L2, mode, x, y, padding, e, offset, original));
      r.x2 == x && r.y2 == y && r.x1 == e.x1 && r.y1 == e.y1
  {
  }
}
