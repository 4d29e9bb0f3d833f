/**
 * User records and the list values the user-management form builds from them.
 * Everything here is a value: the object spread that edits one field of the
 * draft, the spread that appends to the list, the copy-and-assign that
 * replaces one position, and the index filter that deletes one.
 */
module Users {

  /** The four inputs of the form, by their `name` attribute. */
  datatype Field = FirstName | LastName | Email | Department

  /** One user record. It has no identifier: its position in the list is its identity. */
  datatype User = User(firstName: string, lastName: string, email: string, department: string)
  {
    /** The value of one field, as `record[name]` reads it. */
    function Get(f: Field): string {
      match f
      case FirstName => firstName
      case LastName => lastName
      case Email => email
      case Department => department
    }

    /** `{ ...record, [f]: v }`: the record with field `f` set to `v` and the others kept. */
    function With(f: Field, v: string): (r: User)
      ensures r.Get(f) == v
      ensures forall g :: g != f ==> r.Get(g) == Get(g)
    {
      match f
      case FirstName => this.(firstName := v)
      case LastName => this.(lastName := v)
      case Email => this.(email := v)
      case Department => this.(department := v)
    }
  }

  /** The draft the add form starts from: every field the empty string. */
  function Blank(): (u: User)
    ensures forall f :: u.Get(f) == ""
  {
    User("", "", "", "")
  }

  /** Two records that agree on every field are the same record. */
  lemma SameFields(u: User, w: User)
    requires forall f :: u.Get(f) == w.Get(f)
    ensures u == w
  {
    assert u.Get(FirstName) == w.Get(FirstName);
    assert u.Get(LastName) == w.Get(LastName);
    assert u.Get(Email) == w.Get(Email);
    assert u.Get(Department) == w.Get(Department);
  }

  /** Typing a field's current value back into it leaves the record as it was. */
  lemma WithOwnValue(u: User, f: Field)
    ensures u.With(f, u.Get(f)) == u
  {
  }

  /** `[...s, u]`: the list with `u` added at the end. */
  function Appended(s: seq<User>, u: User): (r: seq<User>)
    ensures |r| == |s| + 1
    ensures r[..|s|] == s
    ensures r[|s|] == u
  {
    s + [u]
  }

  /** A copy of `s` whose position `i` is assigned `u`. */
  function ReplacedAt(s: seq<User>, i: nat, u: User): (r: seq<User>)
    requires i < |s|
    ensures |r| == |s|
    ensures r[i] == u
    ensures forall j :: 0 <= j < |s| && j != i ==> r[j] == s[j]
  {
    s[i := u]
  }

  /** Replacing a position by the record already there gives back the same list. */
  lemma ReplacedAtOwn(s: seq<User>, i: nat)
    requires i < |s|
    ensures ReplacedAt(s, i, s[i]) == s
  {
  }

  /**
   * `s.filter((_, j) => j !== k)`: the records of `s` at every position other
   * than `k`, in their order. The position is an arbitrary integer, as the
   * filter compares it with each index and never checks its range.
   */
  function WithoutIndex(s: seq<User>, k: int): (r: seq<User>)
    ensures |r| == if 0 <= k < |s| then |s| - 1 else |s|
    decreases |s|
  {
    if s == [] then []
    else (if k == 0 then [] else [s[0]]) + WithoutIndex(s[1..], k - 1)
  }

  /** Deleting a valid position splices it out: what came before and after keep their order. */
  lemma {:induction false} WithoutIndexSplices(s: seq<User>, k: int)
    requires 0 <= k < |s|
    ensures WithoutIndex(s, k) == s[..k] + s[k + 1..]
    decreases |s|
  {
    if k == 0 {
      assert WithoutIndex(s, k) == [] + WithoutIndex(s[1..], -1);
      WithoutIndexMisses(s[1..], -1);
    } else {
      WithoutIndexSplices(s[1..], k - 1);
      assert s[1..][..k - 1] == s[1..k];
      assert s[1..][k..] == s[k + 1..];
      assert [s[0]] + s[1..k] == s[..k];
    }
  }

  /** Deleting a position the list does not have keeps every record. */
  lemma {:induction false} WithoutIndexMisses(s: seq<User>, k: int)
    requires !(0 <= k < |s|)
    ensures WithoutIndex(s, k) == s
    decreases |s|
  {
    if s != [] {
      WithoutIndexMisses(s[1..], k - 1);
      assert [s[0]] + s[1..] == s;
    }
  }

  /** After deleting position `k`, the records before `k` stay put and those after it move down by one. */
  lemma WithoutIndexShifts(s: seq<User>, k: nat)
    requires k < |s|
    ensures |WithoutIndex(s, k)| == |s| - 1
    ensures forall j :: 0 <= j < k ==> WithoutIndex(s, k)[j] == s[j]
    ensures forall j :: k <= j < |s| - 1 ==> WithoutIndex(s, k)[j] == s[j + 1]
  {
    WithoutIndexSplices(s, k);
  }

  /** The list after submitting each of `drafts` in turn from the add form. */
  function AppendEach(s: seq<User>, drafts: seq<User>): (r: seq<User>)
    decreases |drafts|
  {
    if drafts == [] then s else AppendEach(Appended(s, drafts[0]), drafts[1..])
  }

  /** Adding records one by one yields the old list followed by them in insertion order. */
  lemma {:induction false} AppendEachInOrder(s: seq<User>, drafts: seq<User>)
    ensures AppendEach(s, drafts) == s + drafts
    ensures |AppendEach(s, drafts)| == |s| + |drafts|
    decreases |drafts|
  {
    if drafts != [] {
      AppendEachInOrder(Appended(s, drafts[0]), drafts[1..]);
      assert Appended(s, drafts[0]) + drafts[1..] == s + drafts;
    }
  }
}
