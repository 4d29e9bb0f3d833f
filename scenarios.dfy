/**
 * Sessions of the user-management component, driven from a fresh mount
 * through the same handlers the page's buttons and inputs call, with what
 * each one ends in.
 */
module Scenarios {
  import opened Wrappers
  import opened Users
  import opened App

  /** A first visit: nothing stored, so loading raises nothing and the list stays empty. */
  method FreshSession() returns (m: UserManager, ok: bool)
    ensures ok && m.users == [] && m.storage == Absent && !m.modalOpen
  {
    m := new UserManager(Absent);
    ok := m.Load();
  }

  /** Stored text that is not JSON: the load effect throws and the list stays empty. */
  method MalformedStorage() returns (m: UserManager, ok: bool)
    ensures !ok && m.users == [] && m.storage == Malformed
  {
    m := new UserManager(Malformed);
    ok := m.Load();
  }

  /** A visit after an earlier one saved `saved`: the list comes back as it was stored. */
  method ReturningSession(saved: seq<User>) returns (m: UserManager, ok: bool)
    ensures ok && m.users == saved && m.storage == Saved(saved)
  {
    m := new UserManager(Saved(saved));
    ok := m.Load();
  }

  /** Starting empty and adding one record through the form stores exactly that record. */
  method CreateOne() returns (m: UserManager)
    ensures m.users == [User("Ana", "Lee", "a@x.com", "Eng")]
    ensures m.storage == Saved(m.users)
    ensures !m.modalOpen
  {
    m := new UserManager(Absent);
    var _ := m.Load();
    m.OpenForAdd();
    m.UpdateField(FirstName, "Ana");
    m.UpdateField(LastName, "Lee");
    m.UpdateField(Email, "a@x.com");
    m.UpdateField(Department, "Eng");
    SameFields(m.draft, User("Ana", "Lee", "a@x.com", "Eng"));
    m.Submit();
  }

  /** With `[a, b]` stored, deleting row 0 leaves `[b]`, now in row 0. */
  method DeleteFirstOfTwo(a: User, b: User) returns (m: UserManager)
    ensures m.users == [b] && m.storage == Saved([b])
  {
    m := new UserManager(Saved([a, b]));
    var _ := m.Load();
    m.Delete(0);
    WithoutIndexSplices([a, b], 0);
  }

  /** Deleting the only record empties the list but leaves the stale copy in storage. */
  method DeleteOnlyRecord(a: User) returns (m: UserManager)
    ensures m.users == [] && m.storage == Saved([a])
  {
    m := new UserManager(Saved([a]));
    var _ := m.Load();
    m.Delete(0);
  }

  /** Editing the email of the one stored record changes that field and keeps the other three. */
  method EditEmail(a: User) returns (m: UserManager)
    ensures |m.users| == 1 && m.users[0].Get(Email) == "new@x.com"
    ensures forall f :: f != Email ==> m.users[0].Get(f) == a.Get(f)
    ensures m.storage == Saved(m.users)
  {
    m := new UserManager(Saved([a]));
    var _ := m.Load();
    m.OpenForEdit(0);
    m.UpdateField(Email, "new@x.com");
    m.Submit();
  }

  /** Opening row `i` for editing and saving without typing anything leaves the list as it was. */
  method EditWithoutChange(saved: seq<User>, i: nat) returns (m: UserManager)
    requires i < |saved|
    ensures m.users == saved && m.storage == Saved(saved)
  {
    m := new UserManager(Saved(saved));
    var _ := m.Load();
    m.OpenForEdit(i);
    m.Submit();
    ReplacedAtOwn(saved, i);
  }

  /** Opening row `i`, typing field `f`'s current value back into it and saving leaves the list as it was. */
  method RetypeWithoutChange(saved: seq<User>, i: nat, f: Field) returns (m: UserManager)
    requires i < |saved|
    ensures m.users == saved && m.storage == Saved(saved)
  {
    m := new UserManager(Saved(saved));
    var _ := m.Load();
    m.OpenForEdit(i);
    m.UpdateField(f, m.draft.Get(f));
    WithOwnValue(saved[i], f);
    m.Submit();
    ReplacedAtOwn(saved, i);
  }

  /** Adding `drafts` one after another from an empty start lists them in insertion order, and stores them. */
  method CreateMany(drafts: seq<User>) returns (m: UserManager)
    ensures m.users == drafts && m.users == AppendEach([], drafts)
    ensures |drafts| > 0 ==> m.storage == Saved(drafts)
    ensures |drafts| == 0 ==> m.storage == Absent
  {
    m := new UserManager(Absent);
    var _ := m.Load();
    var k := 0;
    while k < |drafts|
      invariant 0 <= k <= |drafts|
      invariant m.Valid()
      invariant m.users == drafts[..k]
      invariant k == 0 ==> m.storage == Absent
    {
      var d := drafts[k];
      m.OpenForAdd();
      m.UpdateField(FirstName, d.firstName);
      m.UpdateField(LastName, d.lastName);
      m.UpdateField(Email, d.email);
      m.UpdateField(Department, d.department);
      SameFields(m.draft, d);
      m.Submit();
      assert drafts[..k + 1] == drafts[..k] + [d];
      k := k + 1;
    }
    assert drafts[..k] == drafts;
    AppendEachInOrder([], drafts);
  }
}
