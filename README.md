# Sketchify whiteboard core in Dafny

Sketchify is a collaborative whiteboard. Participants draw pen strokes, lines, arrows,
rectangles, diamonds and circles on a shared canvas. Each client keeps its own
undo/redo history. A small server relays canvas snapshots between the members of a room.
This project models the three parts of the system that hold its logic:

- **Element geometry** (`elements.dfy`, module `Elements`, from
  `client/src/helper/element.js`). An element is a record with an id, a tool, the anchor
  coordinates `x1,y1,x2,y2`, a stroke width, optional pen `points` and style attributes
  that the geometry never reads. A snapshot is a sequence of elements, and array order
  is z-order. The module covers hit-testing and topmost-element lookup, bounding-box
  normalisation, translation, the arrow-key nudge, duplication, deletion, field update by
  id, layer reordering, resize-handle arithmetic and `minmax`. Coordinates are exact
  `real`s.
- **Undo/redo history** (`history.dfy`, module `UseHistory`, from
  `client/src/hooks/useHistory.jsx`). The class `History` holds the snapshot stack
  `history`, the cursor `index`, the session room the hook is rendered with, and the
  log `sent` of `getElements` messages handed to the socket. JavaScript array holes are
  `None` entries. `SetState` has four paths: `"prevState"`, live session, overwrite and
  append. `Undo` and `Redo` move the cursor. In a live session a commit collapses the
  stack to one entry but leaves `index` where it was. If `index` was not 0, the hook then
  shows `undefined`: `Current()` is `None`. `SetState`'s contract says so, and
  `SessionCommitAfterEdits` exhibits it.
- **Room relay** (`relay.dfy`, module `Server`, from `server/index.js`). The class
  `RoomRelay` holds `rooms: map<string, set<SocketId>>`, which `Join`, `Leave` and
  `Disconnect` change. `GetElements` returns the `setElements` delivery it causes: either
  nothing, or the unchanged payload sent to the room's members other than the sender.
  All three mutating handlers keep the invariant that no room in the map is empty.

`sequences.dfy` holds `Filter`, which models JavaScript's `Array.prototype.filter`, and a
subsequence predicate with its lemmas. `wrappers.dfy` holds `Option`.

Element helpers that hand a value or an updater to `setState` are modelled by the
snapshot they produce. Committing that snapshot, with the caller's `overwrite` flag, is
`History.SetState`.

Facts about the code that the model keeps as they are:

- In a live session, undo and redo only move the cursor. They do not re-broadcast
  (useHistory.jsx:68-78).
- The relay forwards to the room's other members without checking that the sender is a
  member (server/index.js:74-79).
- `leave` removes the socket from the named room only (server/index.js:56-70). Only
  `disconnect` removes it from every room (server/index.js:86-101).
- The live-session path does not reset the cursor (useHistory.jsx:49-54).

## Model

| member | source | states |
|---|---|---|
| Elements.Minmax | client/src/helper/element.js:184-186 | the value clamped into [lo, hi]: unchanged inside, lo below, hi above; lo when the interval is empty |
| Elements.FindIndex | client/src/helper/element.js:79 | the first index whose id matches, with no match before it; -1 exactly when no element carries the id |
| Elements.GetElementById | client/src/helper/element.js:188-190 | undefined for an undefined canvas; on a canvas, none exactly when no element carries the id, otherwise the first element carrying it |
| Elements.IsWithinElement | client/src/helper/element.js:4-58 | for rectangles and diamonds: hit exactly when the point lies in the corner box grown by strokeWidth/2, whichever order the corners are in; other tools defer to the supplied curve test |
| Elements.BoxInteriorIsHit | client/src/helper/element.js:49-56 | every point of a box element's own min/max box is a hit when the stroke width is not negative |
| Elements.GetElementPosition | client/src/helper/element.js:60-62 | a found element is on the canvas and passes the hit test |
| Elements.GetElementPositionIsTopmost | client/src/helper/element.js:60-62 | none exactly when no element passes; otherwise the element found is the last one in z-order that passes |
| Elements.AdjustCoordinates | client/src/helper/element.js:192-202 | keeps the id; lines and arrows keep their endpoints; other tools get x1<=x2 and y1<=y2 with the same two values per axis |
| Elements.AdjustCoordinatesIdempotent | client/src/helper/element.js:192-202 | normalising an element already written back from a normalisation changes nothing |
| Elements.AdjustCoordinatesKeepsHitArea | client/src/helper/element.js:192-202 | normalising a rectangle or diamond does not change which points hit it |
| Elements.ApplyPatch | client/src/helper/element.js:83-86 | the keys present in the partial record overwrite the element's, every other field is kept, and id, tool, stroke width and style never change |
| Elements.UpdateElement | client/src/helper/element.js:72-89 | same length; only the first element carrying the id changes, to the patched element; with no such element the array is unchanged |
| Elements.ShiftPoints | client/src/helper/element.js:127-130 | every pen point is shifted by the same (dx, dy) and the count is kept |
| Elements.MoveElement | client/src/helper/element.js:123-145 | x1,x2 move by factorX and y1,y2 by factorY (factorX when absent); a pen with points has every point moved the same way; id, tool, stroke width, style and other points are unchanged |
| Elements.ShiftPointsAdditive | client/src/helper/element.js:127-130 | shifting points twice equals shifting once by the sum |
| Elements.ShiftPointsZero | client/src/helper/element.js:127-130 | shifting points by zero is the identity |
| Elements.MoveElementAdditive | client/src/helper/element.js:123-145 | moving by (a,b) then (c,d) equals moving by (a+c,b+d), pen points included |
| Elements.MoveElementZero | client/src/helper/element.js:123-145 | moving by zero is the identity |
| Elements.ArrowMove | client/src/helper/element.js:170-182 | no commit without a selection; otherwise same length, the elements carrying the selected id moved by (x, y) and the others unchanged |
| Elements.ArrowMoveAdditive | client/src/helper/element.js:170-182 | two nudges of the same selection add up to one nudge by their sum |
| Elements.DeleteElement | client/src/helper/element.js:91-97 | no commit without a selection; otherwise what remains is drawn from the canvas and carries no element with the selected id |
| Elements.DeleteElementRemovesExactly | client/src/helper/element.js:91-97 | deletion removes every element with the id, keeps every other occurrence, and keeps the survivors in order |
| Elements.Duplicate | client/src/helper/element.js:113 | the copy carries the new id and, apart from its id, is the original moved by factor on both axes |
| Elements.DuplicateAfter | client/src/helper/element.js:109-120 | the map/flat never shrinks the canvas and leaves it unchanged when no element carries the id |
| Elements.DuplicateElement | client/src/helper/element.js:99-121 | no commit without a selection; otherwise the canvas does not shrink |
| Elements.DuplicateAfterOnce | client/src/helper/element.js:109-120 | with the id held once at k, the result is the canvas with the copy inserted right after position k |
| Elements.DuplicateElementInsertsCopy | client/src/helper/element.js:99-121 | for any selection record (possibly stale) whose id is held by one element: grows by exactly one; the original stays in place and is followed by a copy with a different id and shifted coordinates; everything else keeps its position and order |
| Elements.DuplicateZeroFactor | client/src/helper/element.js:113 | a copy made with factor 0 equals the original except for its id |
| Elements.LayerTarget | client/src/helper/element.js:153-162 | the insertion index: 0 for to=0, the last index for to=2, one step up or down for 1/-1 unless already at that end, unchanged for any other code; always inside the array for a found element |
| Elements.MoveElementLayer | client/src/helper/element.js:147-168 | a permutation of the same length; the element ends at 0 for to=0, at the last index for to=2, one step up or down for 1/-1 unless already at that end; the others keep their order; other codes and unknown ids change nothing |
| Elements.LayerMove | client/src/helper/element.js:150-167 | the reinsertion for a found element, for each code: a permutation with the element at its target, the others in order, and no change for an unknown code |
| Elements.Reinsert | client/src/helper/element.js:150-167 | splicing one element out and inserting it elsewhere permutes the array, places the element at its target, keeps the others in order, and is the identity at the same index |
| Elements.RelativeIndex | client/src/helper/element.js:151 | JavaScript's reading of a splice/slice index: in-range indices are kept, negative ones count from the end, indices past either end clamp to len or 0 |
| Elements.SpliceOne | client/src/helper/element.js:151 | `splice(i, 1)`: an in-range index removes exactly that entry, -1 removes the last entry, and the array shrinks by one for any index from -len to len-1 |
| Elements.InsertAt | client/src/helper/element.js:164-167 | `[...slice(0, i), x, ...slice(i)]`: one longer, with x at position i for an index in range |
| Elements.MoveElementLayerAsWritten | client/src/helper/element.js:147-168 | the JavaScript's result with undefined entries kept; its length is the canvas length, or 1 for an empty canvas |
| Elements.UnknownIdDropsTopmost | client/src/helper/element.js:148-151 | for an id that no element carries, the JavaScript's result minus its undefined entry is the canvas without its topmost element |
| Elements.UnknownIdExample | client/src/helper/element.js:148-151 | on [a, b] with an id neither carries, every reorder leaves only [a] |
| Elements.MoveElementLayerAsWrittenOnKnownId | client/src/helper/element.js:147-168 | for an id the canvas carries, the JavaScript's result is the corrected reinsertion with every entry present |
| Elements.Pad | client/src/helper/element.js:214-216 | `getPadding`: padding when the condition holds, its negation otherwise |
| Elements.Follow | client/src/helper/element.js:218-224 | `getType`: the current value in default mode; otherwise the drag-start value minus (te) or plus the pointer travel `coordinate - y` |
| Elements.ResizeValue | client/src/helper/element.js:204-253 | each handle returns only its own keys (br only x2,y2; tl only x1,y1; bb only y2, ...); l1/l2 put that endpoint on the cursor; default-mode tt keeps y2,x1,x2 at their current values; shift-mode tt sets x1 = original.x1 - def, x2 = original.x2 + def, y2 = original.y2 + def with def = offset.y - y; every dragged edge is cursor + padding while the cursor is before the opposite edge and cursor - padding otherwise |
| Elements.ResizeBottomRightAnchorsTopLeft | client/src/helper/element.js:246-247 | dragging br anchors x1,y1; the new corner is cursor + padding while the cursor is before the anchor, cursor - padding otherwise |
| Elements.ResizeLineEndpoint | client/src/helper/element.js:248-251 | dragging a line endpoint puts exactly that endpoint on the cursor and keeps the other |
| UseHistory.IsValidEntry | client/src/hooks/useHistory.jsx:25 | non-objects never pass; an object passes exactly when its id is truthy (non-empty) |
| UseHistory.SliceEnd | client/src/hooks/useHistory.jsx:62 | the end `slice(0, index + 1)` uses: index + 1, clamped to the array's length |
| UseHistory.ValidateElements | client/src/hooks/useHistory.jsx:18-31 | [] for a non-array; otherwise no longer than the input, and every kept element has a non-empty id |
| UseHistory.ValidateElementsKeepsValidEntries | client/src/hooks/useHistory.jsx:18-31 | the result is the sublist, in original order, of exactly the entries that are objects with a truthy id |
| UseHistory.ValidateElementsIdempotent | client/src/hooks/useHistory.jsx:18-31 | a validated canvas passes validation unchanged |
| UseHistory.Proposed | client/src/hooks/useHistory.jsx:41-47 | the committed canvas, from a value or from an updater applied to the current canvas (or [] when undefined), is validated |
| UseHistory.Assign | client/src/hooks/useHistory.jsx:57-58 | JavaScript indexed assignment: the entry at i becomes v, others are kept, and past the end the array grows to i+1 with holes |
| UseHistory.History.constructor | client/src/hooks/useHistory.jsx:4-8 | the stack holds the initial canvas alone, the cursor is 0, nothing has been sent |
| UseHistory.History.Rebind | client/src/provider/AppStates.jsx:44-45 | a render with another session value changes only the session |
| UseHistory.History.Current | client/src/hooks/useHistory.jsx:80 | the canvas the hook returns: the entry under the cursor, or undefined when the cursor is past the end |
| UseHistory.History.SetState | client/src/hooks/useHistory.jsx:33-66 | "prevState" keeps the stack and steps the cursor back only when positive; a live session replaces the stack by [validated canvas], keeps the cursor (in bounds afterwards only if it was 0), and logs {elements, room} exactly when emit is set; overwrite replaces the current entry (same length when in bounds); otherwise the redo branch is cut, the canvas appended and the cursor moved to it |
| UseHistory.History.Undo | client/src/hooks/useHistory.jsx:68-72 | the cursor steps back only when positive; the stack is unchanged and the cursor stays in bounds |
| UseHistory.History.Redo | client/src/hooks/useHistory.jsx:74-78 | the cursor steps forward only below the last index; the stack is unchanged and the cursor stays in bounds |
| UseHistory.UndoThenRedo | client/src/hooks/useHistory.jsx:62-78 | after commit v1, commit v2 and undo the canvas is v1; redo brings back v2 |
| UseHistory.CommitAfterUndoPrunesRedo | client/src/hooks/useHistory.jsx:62-78 | after commit v1, commit v2, undo and commit v3, the stack has 3 entries and redo leaves v3 current |
| UseHistory.GestureFrames | client/src/hooks/useHistory.jsx:56-60 | any number of overwrite commits keep the stack at one entry, with the last frame current |
| UseHistory.SessionCommitAfterEdits | client/src/hooks/useHistory.jsx:49-54 | after two local edits and joining a room, a commit sends one message and leaves the hook's canvas undefined |
| UseHistory.RemoteApplyIsSilent | client/src/hooks/useHistory.jsx:49-54 | a network commit (emit false) in a live session installs the canvas and sends nothing |
| Server.WithoutMember | server/index.js:86-101 | no remaining room holds the socket or is empty; every room that keeps another member stays with the socket removed; every room the socket leaves empty is deleted |
| Server.RoomRelay.constructor | server/index.js:35 | no rooms |
| Server.RoomRelay.Join | server/index.js:40-54 | the room exists and holds the socket; only that room changes; no room is empty |
| Server.RoomRelay.Leave | server/index.js:56-70 | an unknown room changes nothing; otherwise the socket leaves the room and the room is deleted once empty; no room is empty |
| Server.RoomRelay.GetElements | server/index.js:72-84 | dropped exactly when the room is missing, empty or unknown; otherwise the unchanged payload goes to the room's members minus the sender; the map is not changed |
| Server.RoomRelay.Disconnect | server/index.js:86-101 | the map becomes the old map without the socket and without the rooms it left empty; no room holds the socket or is empty |
| Server.TwoParticipants | server/index.js:40-84 | with A and B in a room, A's snapshot reaches only B; after B leaves, A's snapshot reaches nobody and is not dropped as an error |
| Server.DisconnectScenario | server/index.js:86-101 | after A disconnects, a room it shared still relays to B, and a room it was alone in is gone |

## Findings

| source | as written | input that shows it | evidently intended | confidence | as-written member | corrected member |
|---|---|---|---|---|---|---|
| client/src/helper/element.js:148-167 | `findIndex` gives -1 for an id that is not on the canvas. `splice(-1, 1)` then removes the last element, and `undefined` is inserted where the element should go. History validation drops the `undefined` | the canvas [a, b] and an id neither carries, with any `to`: the committed canvas is [a] | a reorder request for an unknown id leaves the canvas unchanged | low, not executed: the callers (not part of this model) pass the selected element's id, which is normally on the canvas | Elements.MoveElementLayerAsWritten | Elements.MoveElementLayer |

## Left out

- The pen, line/arrow and circle branches of `isWithinElement` use Euclidean distance and floating-point division. They are the `CurveTest` parameter of `IsWithinElement` and `GetElementPosition`. `distance` lives in `helper/canvas.js`, which is not part of this model.
- `saveElements` and `uploadElements` (Blob, URL, DOM and FileReader I/O) are not modelled. The serialise/deserialise round trip is not modelled either.
- `createElement` is not modelled, and `uuid()` is not modelled. Fresh ids are a parameter, required to be absent from the canvas.
- Elements.DuplicateElement: every element carrying the selected id gets a copy with the same `newId`. element.js calls `uuid()` once per copy. On a canvas with unique ids (its invariant) there is at most one such element.
- The `setSelected` / `setSelectedElement` calls of `duplicateElement` and `deleteElement` are not modelled. They update UI selection state, not the canvas.
- Elements.ApplyPatch: the partial record carries only the coordinate keys and `points`. These are the only keys the callers and `resizeValue` pass. The transient `offsetX`/`offsetY` fields are not modelled.
- Elements.GetElementPosition: takes a canvas. The `elements?.` in element.js also answers `undefined` for an undefined canvas.
- Coordinates are exact reals. NaN, infinities and floating-point rounding are not modelled. `Corner`, `ResizeMode` and `Tool` are closed enumerations, so the `undefined` that element.js returns for an unknown handle or tool is not modelled.
- UseHistory.History.constructor: takes the initial canvas as element records. The hook stores a non-array initial value as `[]` and stores an initial array without validating its entries.
- React's asynchronous state updates and stale closures (the `index` captured by `setState`, `undo` and `redo`) are not modelled. Every call acts on the state left by the previous one.
- The `socket` object is not modelled. It is replaced by the `sent` log, and `socket.js` reconnection and logging are left out.
- Server: the Express/HTTP/CORS setup, health endpoints, `server.listen`, logging and the `try/catch` error emits are not modelled.
- Server.RoomRelay.GetElements: takes the payload's `room` and `elements` fields. A `getElements` event whose payload is null or undefined makes the destructuring in the handler's parameter list (server/index.js:72) throw a TypeError. That happens before the `try`, so the handler's `catch` never sees it. This throw is not modelled. socket.io's own room adapter (`socket.join`, `socket.leave`, `socket.to`) is not modelled: recipients come from the `rooms` map.
- `useCanvas.jsx`, `AppStates.jsx` (apart from the session rebinding), `useDimension.jsx`, `Canvas.jsx` and `Credits.jsx` are not modelled. They hold UI event wiring, rendering, zoom and local storage.
