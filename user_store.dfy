/**
  The page's module state, `users` and `editingUserId`, and the handlers that change
  it once the HTTP call has answered. Each handler takes `ok`, the response's success
  flag, and, where the handler reads it, the parsed response body. A handler that
  sees `ok == false` throws before touching either variable.
*/
module App {
  import opened Wrappers
  import opened Records
  import opened Reconcile

  /** The status line a handler shows when it finishes. */
  datatype Notice =
    | UsersLoaded
    | FetchFailed
    | UserDeleted
    | DeleteFailed
    | UserUpdated
    | UserCreated
    | SubmitFailed

  class UserStore {
    /** The cached users, in the order the table shows them. */
    var users: seq<Record>
    /** The id of the user loaded into the form, or `None` in create mode. */
    var editingUserId: Option<int>

    /**
      Every cached user is an object: no key twice. This is what lets callers apply
      `OverlayKeys`, `OverlayLookup` and `CreatedKeys` to the cached users.
    */
    ghost predicate Valid()
      reads this
    {
      forall i :: 0 <= i < |users| ==> WellFormed(users[i])
    }

    /** The state at page load: no users and create mode. */
    constructor ()
      ensures Valid() && users == [] && editingUserId == None
    {
      users := [];
      editingUserId := None;
    }

    /** Page start: the listing replaces the cache wholesale; a failed fetch leaves it as it was. */
    method Load(ok: bool, listing: seq<Record>) returns (notice: Notice)
      requires Valid()
      requires forall i :: 0 <= i < |listing| ==> WellFormed(listing[i])
      modifies this
      ensures Valid()
      ensures users == (if ok then listing else old(users))
      ensures editingUserId == old(editingUserId)
      ensures notice == (if ok then UsersLoaded else FetchFailed)
    {
      if !ok {
        return FetchFailed;
      }
      users := listing;
      notice := UsersLoaded;
    }

    /**
      The Edit button: the form switches to editing the user with that id. When no
      cached user has it, reading `user.name` on `undefined` throws and nothing changes.
    */
    method SelectForEdit(userId: int) returns (found: bool)
      modifies this`editingUserId
      ensures found <==> exists i :: 0 <= i < |users| && HasId(users[i], userId)
      ensures editingUserId == (if found then Some(userId) else old(editingUserId))
    {
      var user := FindById(users, userId);
      if user.None? {
        return false;
      }
      ghost var j :| 0 <= j < |users| && users[j] == user.value;
      var id := IdOf(user.value);
      editingUserId := Some(id.n);
      assert 0 <= j < |users| && HasId(users[j], userId);
      found := true;
    }

    /**
      The Delete button, after the DELETE call: every user with that id leaves the
      cache, and the form leaves edit mode only if it was editing that id.
    */
    method Delete(ok: bool, userId: int) returns (notice: Notice)
      requires Valid()
      modifies this
      ensures Valid()
      ensures users == (if ok then RemoveId(old(users), userId) else old(users))
      ensures editingUserId ==
        (if ok && old(editingUserId) == Some(userId) then None else old(editingUserId))
      ensures notice == (if ok then UserDeleted else DeleteFailed)
    {
      if !ok {
        return DeleteFailed;
      }
      ghost var before := users;
      users := RemoveId(users, userId);
      forall i | 0 <= i < |users| ensures WellFormed(users[i]) {
        assert users[i] in before;
      }
      if editingUserId == Some(userId) {
        editingUserId := None;
      }
      notice := UserDeleted;
    }

    /**
      The form's submit, after the PATCH or POST call. In edit mode the server's answer
      is merged into the edited user in place (no user changes when none has that id);
      in create mode it is formatted after the first user and appended. Either way the
      form returns to create mode.
    */
    method Submit(ok: bool, response: Record) returns (notice: Notice)
      requires Valid()
      modifies this
      ensures Valid()
      ensures !ok ==>
        users == old(users) && editingUserId == old(editingUserId) && notice == SubmitFailed
      ensures ok ==> editingUserId == None
      ensures ok && old(editingUserId).Some? ==>
        var i := FindIndex(old(users), old(editingUserId).value);
        && notice == UserUpdated
        && users == (if i < 0 then old(users) else old(users)[i := Overlay(old(users)[i], response)])
      ensures ok && old(editingUserId).None? ==>
        && notice == UserCreated
        && users == old(users) + [Overlay(Blank(FirstUser(old(users))), response)]
        && Keys(users[|users| - 1]) == Keys(FirstUser(old(users)))
    {
      if editingUserId.Some? {
        if !ok {
          return SubmitFailed;
        }
        var index := FindIndex(users, editingUserId.value);
        // With index -1, `users[-1] = mergedUser` sets a property of the array
        // object that is not an element: the cached users are unchanged.
        if index >= 0 {
          var merged := MergeUser(users[index], response);
          OverlayWellFormed(users[index], response);
          users := users[index := merged];
        }
        notice := UserUpdated;
      } else {
        if !ok {
          return SubmitFailed;
        }
        var formatted := FormatUser(FirstUser(users), response);
        OverlayWellFormed(Blank(FirstUser(users)), response);
        CreatedKeys(users, response);
        users := users + [formatted];
        notice := UserCreated;
      }
      editingUserId := None;
    }
  }

  /** An update in which the server echoes only the id and a new name: the other properties keep their old values. */
  lemma MergeExample()
    ensures Overlay([Field("id", Num(5)), Field("name", Str("old")),
                     Field("email", Str("old@x.com")), Field("extra", Str("k"))],
                    [Field("id", Num(5)), Field("name", Str("new"))])
         == [Field("id", Num(5)), Field("name", Str("new")),
             Field("email", Str("old@x.com")), Field("extra", Str("k"))]
  {
    var before := [Field("id", Num(5)), Field("name", Str("old")),
                   Field("email", Str("old@x.com")), Field("extra", Str("k"))];
    var answer := [Field("id", Num(5)), Field("name", Str("new"))];
    assert WellFormed(before);
    OverlayAt(before, answer);
    var out := Overlay(before, answer);
    assert Lookup(answer, "id") == Num(5);
    assert Lookup(answer, "name") == Str("new");
    assert Lookup(answer, "email") == Undefined;
    assert Lookup(answer, "extra") == Undefined;
    assert out[0] == Field("id", Num(5));
    assert out[1] == Field("name", Str("new"));
    assert out[2] == Field("email", Str("old@x.com"));
    assert out[3] == Field("extra", Str("k"));
  }

  /**
    A user with id 5 is edited and the server echoes only the new name: the other
    fields survive and the user keeps its place.
  */
  method UpdateScenario() {
    var store := new UserStore();
    var before := [Field("id", Num(5)), Field("name", Str("old")),
                   Field("email", Str("old@x.com")), Field("extra", Str("k"))];
    var after := [Field("id", Num(5)), Field("name", Str("new")),
                  Field("email", Str("old@x.com")), Field("extra", Str("k"))];
    var answer := [Field("id", Num(5)), Field("name", Str("new"))];
    assert WellFormed(before);
    var notice := store.Load(true, [before]);
    assert HasId(before, 5);
    assert HasId(store.users[0], 5);
    var found := store.SelectForEdit(5);
    assert found && store.editingUserId == Some(5);
    assert FindIndex(store.users, 5) == 0;
    notice := store.Submit(true, answer);
    MergeExample();
    assert store.users == [after];
    assert store.editingUserId == None && notice == UserUpdated;
  }

  /** A create answered with only a name and a new id: the missing `email` becomes `""`, in the first user's key order. */
  lemma FormatExample()
    ensures Overlay(Blank([Field("id", Num(1)), Field("name", Str("Leanne")), Field("email", Str("a@b.com"))]),
                    [Field("name", Str("X")), Field("id", Num(2))])
         == [Field("id", Num(2)), Field("name", Str("X")), Field("email", Str(""))]
  {
    var first := [Field("id", Num(1)), Field("name", Str("Leanne")), Field("email", Str("a@b.com"))];
    var blank := [Field("id", Str("")), Field("name", Str("")), Field("email", Str(""))];
    var answer := [Field("name", Str("X")), Field("id", Num(2))];
    assert Blank(first) == blank;
    assert WellFormed(blank);
    OverlayAt(blank, answer);
    var out := Overlay(blank, answer);
    assert Lookup(answer, "id") == Num(2);
    assert Lookup(answer, "name") == Str("X");
    assert Lookup(answer, "email") == Undefined;
    assert out[0] == Field("id", Num(2));
    assert out[1] == Field("name", Str("X"));
    assert out[2] == Field("email", Str(""));
  }

  /**
    A user is created next to one with keys id, name and email; the server answers
    with name and id only, so email becomes `""`. A failed create changes nothing.
  */
  method CreateScenario() {
    var store := new UserStore();
    var first := [Field("id", Num(1)), Field("name", Str("Leanne")), Field("email", Str("a@b.com"))];
    var notice := store.Load(true, [first]);
    var answer := [Field("name", Str("X")), Field("id", Num(2))];
    notice := store.Submit(false, answer);
    assert store.users == [first] && notice == SubmitFailed;
    notice := store.Submit(true, answer);
    FormatExample();
    assert store.users == [first, [Field("id", Num(2)), Field("name", Str("X")), Field("email", Str(""))]];
  }

  /** Deleting the user being edited empties the cache and returns the form to create mode. */
  method DeleteScenario() {
    var store := new UserStore();
    var first := [Field("id", Num(5)), Field("name", Str("Ann"))];
    var notice := store.Load(true, [first]);
    assert HasId(store.users[0], 5);
    var found := store.SelectForEdit(5);
    notice := store.Delete(true, 5);
    assert store.users == [] && store.editingUserId == None;
  }
}
