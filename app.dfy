/**
 * The user-management component: one owner of the user list, the modal flag,
 * the form draft, the editing cursor and the persisted copy of the list kept
 * in local storage under the key "users". Each event handler is a method that
 * assigns the new state at once; the write-through effect is the explicit
 * step Persist, taken at the end of every method that sets the list.
 */
module App {
  import opened Wrappers
  import opened Users

  /** What local storage holds under the key "users". */
  datatype Slot =
    | Absent                   // the key was never written
    | Saved(list: seq<User>)   // the text of a list of records
    | Malformed                // text that is not valid JSON

  class UserManager {
    var users: seq<User>
    var modalOpen: bool
    var draft: User
    var editing: Option<nat>
    var storage: Slot

    /** Write-through: whenever the list is non-empty, storage holds exactly that list. */
    predicate Valid()
      reads this
    {
      |users| > 0 ==> storage == Saved(users)
    }

    /** The cursor names a position the list has, or the form is adding. */
    predicate CursorInRange()
      reads this
    {
      editing.Some? ==> editing.value < |users|
    }

    /** The component's first render: the initial values of its state, beside whatever storage held. */
    constructor (stored: Slot)
      ensures Valid()
      ensures users == [] && !modalOpen && draft == Blank() && editing == None
      ensures storage == stored
    {
      users := [];
      modalOpen := false;
      draft := Blank();
      editing := None;
      storage := stored;
    }

    /** The write-through effect: store the list when it is non-empty, otherwise leave storage alone. */
    method Persist()
      modifies this`storage
      ensures Valid()
      ensures |users| == 0 ==> storage == old(storage)
    {
      if |users| > 0 {
        storage := Saved(users);
      }
    }

    /**
     * The load effect. A stored list (even an empty one, which is truthy) is
     * adopted; an absent key parses to null and changes nothing; malformed
     * text makes the parse throw, which is reported as `ok == false` with the
     * state left as it was.
     */
    method Load() returns (ok: bool)
      requires Valid()
      modifies this
      ensures Valid()
      ensures ok <==> !old(storage).Malformed?
      ensures old(storage).Saved? ==> users == old(storage).list
      ensures !old(storage).Saved? ==> users == old(users)
      ensures storage == old(storage)
      ensures modalOpen == old(modalOpen) && draft == old(draft) && editing == old(editing)
    {
      match storage
      case Malformed =>
        ok := false;
      case Absent =>
        ok := true;
      case Saved(list) =>
        ok := true;
        users := list;
        Persist();
    }

    /** "Add New User": a blank draft, no cursor, the modal open; the list is untouched. */
    method OpenForAdd()
      requires Valid()
      modifies this
      ensures Valid() && CursorInRange()
      ensures modalOpen && draft == Blank() && editing == None
      ensures users == old(users) && storage == old(storage)
    {
      modalOpen := true;
      draft := Blank();
      editing := None;
    }

    /** The modal's close control: only the flag changes; draft and cursor stay as they were. */
    method Close()
      modifies this`modalOpen
      ensures !modalOpen
    {
      modalOpen := false;
    }

    /** An input's change event: one field of the draft takes the typed value. */
    method UpdateField(f: Field, v: string)
      requires Valid()
      modifies this`draft
      ensures Valid()
      ensures draft == old(draft).With(f, v)
      ensures draft.Get(f) == v
      ensures forall g :: g != f ==> draft.Get(g) == old(draft).Get(g)
    {
      draft := draft.With(f, v);
    }

    /**
     * Saving the form: with a cursor the record at that position is replaced
     * by the draft, without one the draft is appended; then the list is
     * persisted and the modal closed.
     */
    method Submit()
      requires Valid() && CursorInRange()
      modifies this
      ensures Valid()
      ensures old(editing).None? ==> users == Appended(old(users), old(draft))
      ensures old(editing).Some? ==> users == ReplacedAt(old(users), old(editing).value, old(draft))
      ensures storage == Saved(users)
      ensures !modalOpen && draft == old(draft) && editing == old(editing)
    {
      match editing {
        case Some(i) =>
          users := ReplacedAt(users, i, draft);
        case None =>
          users := Appended(users, draft);
      }
      Persist();
      Close();
    }

    /** A row's Edit button: the draft becomes that record, the cursor its position, the modal opens. */
    method OpenForEdit(i: nat)
      requires Valid() && i < |users|
      modifies this
      ensures Valid() && CursorInRange()
      ensures users == old(users) && storage == old(storage)
      ensures modalOpen && draft == users[i] && editing == Some(i)
    {
      draft := users[i];
      editing := Some(i);
      modalOpen := true;
    }

    /** A row's Delete button: the list without position `i`, then persisted. */
    method Delete(i: int)
      requires Valid()
      modifies this
      ensures Valid()
      ensures users == WithoutIndex(old(users), i)
      ensures |users| == 0 ==> storage == old(storage)
      ensures modalOpen == old(modalOpen) && draft == old(draft) && editing == old(editing)
    {
      users := WithoutIndex(users, i);
      Persist();
    }
  }
}
