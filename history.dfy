/**
 * The undo/redo state of client/src/hooks/useHistory.jsx: a stack of canvas
 * snapshots, a cursor into it, the live-session room the hook was rendered with,
 * and the `getElements` messages handed to the socket.
 *
 * JavaScript arrays may hold holes: writing past the end of the history leaves
 * `undefined` entries, and the cursor may point past the end after a session
 * commit. Such entries are None, and so is the current snapshot then.
 */
module UseHistory {
  import opened Wrappers
  import opened Sequences
  import opened Elements

  /** One entry of an array handed to `setState`, before validation: an object
      (read as an element record) or anything else (null, a number, a string...). */
  datatype Entry = Object(element: Element) | NonObject

  /** What `setState` receives once any updater has run: an array or anything else. */
  datatype Value = Array(entries: seq<Entry>) | NotArray

  /** The first argument of `setState`: the string "prevState", a new canvas, or an
      updater applied to the current canvas. */
  datatype Action = PrevState | Set(value: Value) | Update(updater: Snapshot -> Value)

  /** `socket.emit("getElements", { elements, room })`. */
  datatype Message = GetElements(elements: Snapshot, room: string)

  /** An entry survives validation when it is an object whose id is truthy: null,
      numbers, strings and the like never do, and the empty id is falsy. */
  predicate IsValidEntry(x: Entry): (b: bool)
    ensures x.NonObject? ==> !b
    ensures x.Object? ==> (b <==> x.element.id != "")
  {
    x.Object? && x.element.id != ""
  }

  /** Each element as an object entry. */
  function Wrap(s: Snapshot): (r: seq<Entry>)
    ensures |r| == |s| && forall i :: 0 <= i < |s| ==> r[i] == Object(s[i])
  {
    seq(|s|, i requires 0 <= i < |s| => Object(s[i]))
  }

  /** `validateElements`: [] for anything but an array, otherwise the valid entries. */
  function ValidateElements(v: Value): (r: Snapshot)
    ensures v.NotArray? ==> r == []
    ensures forall e :: e in r ==> e.id != ""
    ensures v.Array? ==> |r| <= |v.entries|
  {
    match v
    case NotArray => []
    case Array(entries) =>
      var kept := Filter(entries, IsValidEntry);
      var r := seq(|kept|, i requires 0 <= i < |kept| => assert kept[i] in kept; kept[i].element);
      assert forall i :: 0 <= i < |r| ==> r[i].id != "" by {
        forall i | 0 <= i < |r| ensures r[i].id != "" {
          assert kept[i] in kept;
          assert IsValidEntry(kept[i]);
        }
      }
      r
  }

  /** Validation returns, in their original order, exactly the entries that are objects
      with a truthy id. */
  lemma ValidateElementsKeepsValidEntries(entries: seq<Entry>)
    ensures var r := Wrap(ValidateElements(Array(entries)));
      IsSubsequence(r, entries) &&
      forall x :: multiset(r)[x] == if IsValidEntry(x) then multiset(entries)[x] else 0
  {
    var kept := Filter(entries, IsValidEntry);
    assert Wrap(ValidateElements(Array(entries))) == kept by {
      forall i | 0 <= i < |kept| ensures kept[i].Object? && kept[i] == Object(kept[i].element) {
        assert kept[i] in kept;
      }
    }
    FilterIsSubsequence(entries, IsValidEntry);
    forall x ensures multiset(kept)[x] == if IsValidEntry(x) then multiset(entries)[x] else 0 {
      FilterCount(entries, IsValidEntry, x);
    }
  }

  /** A canvas that already passed validation passes it again unchanged. */
  lemma ValidateElementsIdempotent(s: Snapshot)
    requires forall e :: e in s ==> e.id != ""
    ensures ValidateElements(Array(Wrap(s))) == s
  {
    var w := Wrap(s);
    forall i | 0 <= i < |w| ensures IsValidEntry(w[i]) {
      assert s[i] in s;
    }
    FilterAll(w, IsValidEntry);
  }

  /** The canvas a non-"prevState" action commits: the value itself, or the updater
      applied to the current canvas (`latestState.current || []`), then validated. */
  function Proposed(action: Action, current: Option<Snapshot>): (r: Snapshot)
    requires !action.PrevState?
    ensures forall e :: e in r ==> e.id != ""
  {
    match action
    case Set(v) => ValidateElements(v)
    case Update(f) => ValidateElements(f(current.GetOr([])))
  }

  /** `copy[i] = v` on a JavaScript array: past the end, the array grows to i + 1 and
      the gap is filled with holes. */
  function Assign(h: seq<Option<Snapshot>>, i: nat, v: Option<Snapshot>): (r: seq<Option<Snapshot>>)
    ensures |r| == if i < |h| then |h| else i + 1
    ensures r[i] == v
    ensures forall j :: 0 <= j < |h| && j != i ==> r[j] == h[j]
    ensures forall j :: |h| <= j < i ==> r[j] == None
  {
    if i < |h| then h[i := v] else h + seq(i - |h|, _ => None) + [v]
  }

  /** The end `slice(0, index + 1)` actually uses: clamped to the array's length. */
  function SliceEnd(index: nat, len: nat): (r: nat)
    ensures r <= len && r <= index + 1
    ensures r == index + 1 || r == len
  {
    if index + 1 <= len then index + 1 else len
  }

  class History {
    /** The snapshots; None marks an array hole. */
    var history: seq<Option<Snapshot>>
    /** The cursor: history[index] is the canvas shown. */
    var index: nat
    /** The room the hook is rendered with, if any. */
    var session: Option<string>
    /** Every `getElements` message emitted so far, oldest first. */
    var sent: seq<Message>

    ghost predicate Valid()
      reads this
    {
      |history| >= 1
    }

    /** `history[index]`: the canvas the hook returns. */
    function Current(): (r: Option<Snapshot>)
      reads this
      ensures InBounds() ==> r == history[index]
      ensures !InBounds() ==> r.None?
    {
      if index < |history| then history[index] else None
    }

    /** The cursor addresses an entry of the stack. */
    predicate InBounds()
      reads this
    {
      index < |history|
    }

    /** `if (session)`: a room name is bound and is not the empty string. */
    predicate Live()
      reads this
    {
      session.Some? && session.value != ""
    }

    /** `useHistory(initialState, session)` on its first render. */
    constructor (initial: Snapshot, session: Option<string>)
      ensures Valid() && InBounds()
      ensures history == [Some(initial)] && index == 0 && this.session == session && sent == []
      ensures Current() == Some(initial)
    {
      history := [Some(initial)];
      index := 0;
      this.session := session;
      sent := [];
    }

    /** A later render with another session value (`setSession` in the provider). */
    method Rebind(session: Option<string>)
      modifies this
      ensures this.session == session
      ensures history == old(history) && index == old(index) && sent == old(sent)
    {
      this.session := session;
    }

    /** `setState(action, overwrite, emit)`. */
    method SetState(action: Action, overwrite: bool, emit: bool)
      requires Valid()
      modifies this
      ensures Valid() && session == old(session)
      // "prevState": the stack stays, the cursor steps back unless it is at 0
      ensures action.PrevState? ==>
        history == old(history) && sent == old(sent) &&
        index == (if old(index) > 0 then old(index) - 1 else old(index))
      ensures action.PrevState? && old(InBounds()) ==> InBounds()
      // live session: the stack collapses to the new canvas, the cursor is untouched
      ensures !action.PrevState? && old(Live()) ==>
        var s := Proposed(action, old(Current()));
        history == [Some(s)] && index == old(index) &&
        sent == old(sent) + (if emit then [GetElements(s, old(session).value)] else [])
      ensures !action.PrevState? && old(Live()) ==> (InBounds() <==> old(index) == 0)
      // no session, overwrite: the current entry is replaced
      ensures !action.PrevState? && !old(Live()) && overwrite ==>
        history == Assign(old(history), old(index), Some(Proposed(action, old(Current())))) &&
        index == old(index) && sent == old(sent)
      ensures !action.PrevState? && !old(Live()) && overwrite && old(InBounds()) ==>
        |history| == |old(history)|
      // no session, append: the redo branch is cut and the cursor moves to the new top
      ensures !action.PrevState? && !old(Live()) && !overwrite ==>
        history == old(history)[..SliceEnd(old(index), |old(history)|)] + [Some(Proposed(action, old(Current())))] &&
        index == |history| - 1 && sent == old(sent)
      ensures !action.PrevState? && !old(Live()) ==>
        InBounds() && Current() == Some(Proposed(action, old(Current())))
    {
      if action.PrevState? {
        if index <= 0 {
          return;
        }
        index := index - 1;
        return;
      }

      var newState := Proposed(action, Current());

      if Live() {
        if emit {
          sent := sent + [GetElements(newState, session.value)];
        }
        history := [Some(newState)];
        return;
      }

      if overwrite {
        var historyCopy := history;
        historyCopy := Assign(historyCopy, index, Some(newState));
        history := historyCopy;
        return;
      }

      var updatedHistory := history[..SliceEnd(index, |history|)] + [Some(newState)];
      index := |updatedHistory| - 1;
      history := updatedHistory;
    }

    /** `undo()`: one step back unless the cursor is at 0. */
    method Undo()
      requires Valid()
      modifies this
      ensures Valid()
      ensures history == old(history) && session == old(session) && sent == old(sent)
      ensures index == if old(index) > 0 then old(index) - 1 else old(index)
      ensures old(InBounds()) ==> InBounds()
    {
      if index > 0 {
        index := index - 1;
      }
    }

    /** `redo()`: one step forward unless the cursor is at the last entry. */
    method Redo()
      requires Valid()
      modifies this
      ensures Valid()
      ensures history == old(history) && session == old(session) && sent == old(sent)
      ensures index == if old(index) < |history| - 1 then old(index) + 1 else old(index)
      ensures old(InBounds()) ==> InBounds()
    {
      if index < |history| - 1 {
        index := index + 1;
      }
    }
  }

  /** Commit v1, commit v2, undo: the canvas is v1 again; redo brings back v2. */
  method UndoThenRedo(initial: Snapshot, v1: Value, v2: Value)
    returns (afterUndo: Option<Snapshot>, afterRedo: Option<Snapshot>)
    ensures afterUndo == Some(ValidateElements(v1))
    ensures afterRedo == Some(ValidateElements(v2))
  {
    var h := new History(initial, None);
    h.SetState(Set(v1), false, true);
    h.SetState(Set(v2), false, true);
    h.Undo();
    afterUndo := h.Current();
    h.Redo();
    afterRedo := h.Current();
  }

  /** Commit v1, commit v2, undo, commit v3: the redo branch holding v2 is gone, so
      redo changes nothing. */
  method CommitAfterUndoPrunesRedo(initial: Snapshot, v1: Value, v2: Value, v3: Value)
    returns (beforeRedo: Option<Snapshot>, afterRedo: Option<Snapshot>, length: nat)
    ensures beforeRedo == afterRedo == Some(ValidateElements(v3))
    ensures length == 3
  {
    var h := new History(initial, None);
    h.SetState(Set(v1), false, true);
    h.SetState(Set(v2), false, true);
    h.Undo();
    h.SetState(Set(v3), false, true);
    beforeRedo := h.Current();
    h.Redo();
    afterRedo := h.Current();
    length := |h.history|;
  }

  /** A gesture's intermediate frames are overwrite commits: however many there are,
      the stack keeps its length and only the last frame is current. */
  method GestureFrames(initial: Snapshot, frames: seq<Value>) returns (length: nat, current: Option<Snapshot>)
    requires frames != []
    ensures length == 1
    ensures current == Some(ValidateElements(frames[|frames| - 1]))
  {
    var h := new History(initial, None);
    var i := 0;
    while i < |frames|
      invariant 0 <= i <= |frames|
      invariant h.Valid() && h.InBounds() && |h.history| == 1 && h.index == 0 && !h.Live()
      invariant i > 0 ==> h.Current() == Some(ValidateElements(frames[i - 1]))
    {
      h.SetState(Set(frames[i]), true, true);
      i := i + 1;
    }
    length := |h.history|;
    current := h.Current();
  }

  /** Joining a room after two local edits: the next commit collapses the stack to one
      entry but leaves the cursor at 2, so the hook's canvas is undefined and one
      message is sent. */
  method SessionCommitAfterEdits(initial: Snapshot, v1: Value, v2: Value, v3: Value, room: string)
    returns (current: Option<Snapshot>, messages: seq<Message>)
    requires room != ""
    ensures current == None
    ensures messages == [GetElements(ValidateElements(v3), room)]
  {
    var h := new History(initial, None);
    h.SetState(Set(v1), false, true);
    h.SetState(Set(v2), false, true);
    h.Rebind(Some(room));
    h.SetState(Set(v3), false, true);
    current := h.Current();
    messages := h.sent;
  }

  /** A snapshot applied from the network (emit = false) in a live session is installed
      without being sent back. */
  method RemoteApplyIsSilent(initial: Snapshot, remote: Value, room: string)
    returns (current: Option<Snapshot>, messages: seq<Message>)
    requires room != ""
    ensures current == Some(ValidateElements(remote))
    ensures messages == []
  {
    var h := new History(initial, Some(room));
    h.SetState(Set(remote), false, false);
    current := h.Current();
    messages := h.sent;
  }
}
