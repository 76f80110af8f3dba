/**
  The reconciliation rules of the user cache as pure functions, the two `for…in`
  loops that build a reconciled record, and the properties of both.

  An update merges the server's answer into the record being edited; a create
  formats the server's answer after the first cached record. Both loops perform
  `out[key] = server[key] ?? fallback[key]` once per template key, in enumeration
  order, so both are `Overlay`: for an update the fallback is the old record
  itself, for a create it is `Blank(users[0])`, the first record with every
  value replaced by `""`.
*/
module Reconcile {
  import opened Wrappers
  import opened Records

  // ---------------------------------------------------------------------------
  // Building a record over a template
  // ---------------------------------------------------------------------------

  /**
    The object obtained by starting from `{}` and assigning, for each property of
    `template` in order, `out[key] = server[key] ?? template[key]`.
  */
  function Overlay(template: Record, server: Record): Record
  {
    if template == [] then []
    else
      var n := |template| - 1;
      SetField(Overlay(template[..n], server), template[n].key,
               Coalesce(Lookup(server, template[n].key), template[n].value))
  }

  /** The template's keys, each with the value `""`. */
  function Blank(template: Record): (blank: Record)
    ensures Keys(blank) == Keys(template)
    ensures forall i :: 0 <= i < |blank| ==> blank[i].value == Str("")
  {
    seq(|template|, i requires 0 <= i < |template| => Field(template[i].key, Str("")))
  }

  /**
    The record a create takes its shape from: `users[0]`, or no property at all when
    the cache is empty, because `for…in` over `undefined` does not iterate.
  */
  function FirstUser(users: seq<Record>): Record {
    if users == [] then [] else users[0]
  }

  /** The first `n` properties of an object still have distinct keys. */
  lemma WellFormedPrefix(r: Record, n: nat)
    requires WellFormed(r) && n <= |r|
    ensures WellFormed(r[..n])
  {
  }

  /** Field by field, the overlay keeps the template's keys and order and takes `server[key] ?? template[key]`. */
  lemma {:induction false} OverlayAt(template: Record, server: Record)
    requires WellFormed(template)
    ensures |Overlay(template, server)| == |template|
    ensures forall i :: 0 <= i < |template| ==>
      Overlay(template, server)[i] ==
        Field(template[i].key, Coalesce(Lookup(server, template[i].key), template[i].value))
  {
    if template != [] {
      var n := |template| - 1;
      var prefix := template[..n];
      WellFormedPrefix(template, n);
      OverlayAt(prefix, server);
      var built := Overlay(prefix, server);
      var key := template[n].key;
      assert key !in Keys(built) by {
        forall i | 0 <= i < n ensures Keys(built)[i] != key {
          assert built[i].key == prefix[i].key == template[i].key;
        }
      }
      var out := Overlay(template, server);
      assert out == built + [Field(key, Coalesce(Lookup(server, key), template[n].value))];
      forall i | 0 <= i < |template|
        ensures out[i] == Field(template[i].key, Coalesce(Lookup(server, template[i].key), template[i].value))
      {
        if i < n {
          assert out[i] == built[i] && template[i] == prefix[i];
        }
      }
    }
  }

  /** The overlay of any template is a valid object: no key appears twice. */
  lemma {:induction false} OverlayWellFormed(template: Record, server: Record)
    ensures WellFormed(Overlay(template, server))
  {
    if template != [] {
      OverlayWellFormed(template[..|template| - 1], server);
    }
  }

  /** The overlay has exactly the template's keys, in the template's order: keys only the server sent are dropped. */
  lemma OverlayKeys(template: Record, server: Record)
    requires WellFormed(template)
    ensures Keys(Overlay(template, server)) == Keys(template)
  {
    OverlayAt(template, server);
  }

  /**
    Reading any key of the overlay: a template key reads as the server's value unless
    that value is `null` or `undefined` (so `""`, `0` and `false` from the server win),
    and then as the template's value; any other key is absent.
  */
  lemma OverlayLookup(template: Record, server: Record, k: string)
    requires WellFormed(template)
    ensures k !in Keys(template) ==> Lookup(Overlay(template, server), k) == Undefined
    ensures k in Keys(template) && Lookup(server, k) != Undefined && Lookup(server, k) != Null ==>
      Lookup(Overlay(template, server), k) == Lookup(server, k)
    ensures k in Keys(template) && (Lookup(server, k) == Undefined || Lookup(server, k) == Null) ==>
      Lookup(Overlay(template, server), k) == Lookup(template, k)
  {
    var out := Overlay(template, server);
    OverlayAt(template, server);
    OverlayWellFormed(template, server);
    assert Keys(out) == Keys(template);
    if k in Keys(template) {
      var i :| 0 <= i < |template| && template[i].key == k;
      LookupAt(template, i);
      LookupAt(out, i);
    } else {
      LookupMissing(out, k);
    }
  }

  /** A blanked object is still an object, and each of its keys reads as `""`. */
  lemma BlankFacts(template: Record)
    requires WellFormed(template)
    ensures WellFormed(Blank(template))
    ensures forall k :: k in Keys(template) ==> Lookup(Blank(template), k) == Str("")
  {
    var b := Blank(template);
    assert Keys(b) == Keys(template);
    forall k | k in Keys(template) ensures Lookup(b, k) == Str("") {
      var i :| 0 <= i < |template| && template[i].key == k;
      LookupAt(b, i);
    }
  }

  /**
    The record a create appends has exactly the keys of the first cached user, in the
    same order, and none at all when the cache is empty.
  */
  lemma CreatedKeys(users: seq<Record>, server: Record)
    requires users != [] ==> WellFormed(users[0])
    ensures Keys(Overlay(Blank(FirstUser(users)), server)) == Keys(FirstUser(users))
  {
    BlankFacts(FirstUser(users));
    OverlayKeys(Blank(FirstUser(users)), server);
  }

  /**
    Each key of the created record reads as the server's value unless that is `null`
    or `undefined`, and then as `""`; a key the template lacks is absent.
  */
  lemma CreatedLookup(template: Record, server: Record, k: string)
    requires WellFormed(template)
    ensures k in Keys(template) && Lookup(server, k) != Undefined && Lookup(server, k) != Null ==>
      Lookup(Overlay(Blank(template), server), k) == Lookup(server, k)
    ensures k in Keys(template) && (Lookup(server, k) == Undefined || Lookup(server, k) == Null) ==>
      Lookup(Overlay(Blank(template), server), k) == Str("")
    ensures k !in Keys(template) ==> Lookup(Overlay(Blank(template), server), k) == Undefined
  {
    BlankFacts(template);
    OverlayLookup(Blank(template), server, k);
  }

  // ---------------------------------------------------------------------------
  // The two `for…in` loops
  // ---------------------------------------------------------------------------

  /** The update loop: `mergedUser[key] = updatedUser[key] ?? template[key]` for each key of the record being edited. */
  method MergeUser(template: Record, updated: Record) returns (merged: Record)
    ensures merged == Overlay(template, updated)
  {
    merged := [];
    var i := 0;
    while i < |template|
      invariant 0 <= i <= |template|
      invariant merged == Overlay(template[..i], updated)
    {
      var key := template[i].key;
      merged := SetField(merged, key, Coalesce(Lookup(updated, key), template[i].value));
      assert template[..i + 1][..i] == template[..i];
      i := i + 1;
    }
    assert template[..i] == template;
  }

  /** The create loop: `formattedUser[key] = createdUser[key] ?? ""` for each key of the first cached record. */
  method FormatUser(template: Record, created: Record) returns (formatted: Record)
    ensures formatted == Overlay(Blank(template), created)
  {
    formatted := [];
    var i := 0;
    while i < |template|
      invariant 0 <= i <= |template|
      invariant formatted == Overlay(Blank(template[..i]), created)
    {
      var key := template[i].key;
      formatted := SetField(formatted, key, Coalesce(Lookup(created, key), Str("")));
      assert Blank(template[..i + 1])[..i] == Blank(template[..i]);
      i := i + 1;
    }
    assert template[..i] == template;
  }

  // ---------------------------------------------------------------------------
  // Finding and removing users by id
  // ---------------------------------------------------------------------------

  /** `user.id`: the value of the user's own `id` property, or `undefined` without one. */
  function IdOf(user: Record): (id: Value)
    ensures "id" !in Keys(user) ==> id == Undefined
    ensures WellFormed(user) ==> forall i :: 0 <= i < |user| && user[i].key == "id" ==> id == user[i].value
  {
    var id := Lookup(user, "id");
    assert "id" !in Keys(user) ==> id == Undefined by {
      if "id" !in Keys(user) {
        LookupMissing(user, "id");
      }
    }
    assert WellFormed(user) ==> forall i :: 0 <= i < |user| && user[i].key == "id" ==> id == user[i].value by {
      if WellFormed(user) {
        forall i | 0 <= i < |user| && user[i].key == "id" ensures id == user[i].value {
          LookupAt(user, i);
        }
      }
    }
    id
  }

  /** `user.id === id`: strict equality, so only a number equal to `id` matches, and a user without an `id` never does. */
  predicate HasId(user: Record, id: int): (has: bool)
    ensures has ==> "id" in Keys(user)
  {
    IdOf(user) == Num(id)
  }

  /** `users.findIndex((item) => item.id === id)`: the first matching position, or -1. */
  function FindIndex(users: seq<Record>, id: int): (i: int)
    ensures -1 <= i < |users|
    ensures i == -1 <==> forall j :: 0 <= j < |users| ==> !HasId(users[j], id)
    ensures i >= 0 ==> HasId(users[i], id) && forall j :: 0 <= j < i ==> !HasId(users[j], id)
  {
    if users == [] then -1
    else if HasId(users[0], id) then 0
    else
      var k := FindIndex(users[1..], id);
      assert forall j :: 0 < j < |users| ==> users[j] == users[1..][j - 1];
      if k == -1 then -1 else k + 1
  }

  /** `users.find((item) => item.id === id)`: the first cached user with that id, or `undefined`. */
  function FindById(users: seq<Record>, id: int): (user: Option<Record>)
    ensures user.None? <==> forall j :: 0 <= j < |users| ==> !HasId(users[j], id)
    ensures user.Some? ==> user.value in users && HasId(user.value, id)
    ensures user.Some? ==> user.value == users[FindIndex(users, id)]
  {
    var i := FindIndex(users, id);
    if i < 0 then None else Some(users[i])
  }

  /** `users.filter((item) => item.id !== id)`. */
  function RemoveId(users: seq<Record>, id: int): (rest: seq<Record>)
    ensures forall user :: user in rest <==> user in users && !HasId(user, id)
    ensures |rest| <= |users|
  {
    if users == [] then []
    else if HasId(users[0], id) then RemoveId(users[1..], id)
    else [users[0]] + RemoveId(users[1..], id)
  }

  /** How many cached users have the given id. */
  function CountId(users: seq<Record>, id: int): nat {
    if users == [] then 0
    else (if HasId(users[0], id) then 1 else 0) + CountId(users[1..], id)
  }

  /** Removing keeps the survivors in their original relative order: filtering distributes over concatenation. */
  lemma {:induction false} RemoveIdConcat(a: seq<Record>, b: seq<Record>, id: int)
    ensures RemoveId(a + b, id) == RemoveId(a, id) + RemoveId(b, id)
  {
    if a == [] {
      assert a + b == b;
    } else {
      assert (a + b)[0] == a[0] && (a + b)[1..] == a[1..] + b;
      RemoveIdConcat(a[1..], b, id);
    }
  }

  /** A delete of an id no cached user has leaves the cache as it was. */
  lemma {:induction false} RemoveIdAbsent(users: seq<Record>, id: int)
    requires forall j :: 0 <= j < |users| ==> !HasId(users[j], id)
    ensures RemoveId(users, id) == users
  {
    if users != [] {
      RemoveIdAbsent(users[1..], id);
    }
  }

  /** A delete removes every user with the id, not only the first. */
  lemma {:induction false} RemoveIdLength(users: seq<Record>, id: int)
    ensures |RemoveId(users, id)| == |users| - CountId(users, id)
  {
    if users != [] {
      RemoveIdLength(users[1..], id);
    }
  }

  /**
    No two cached users share an id. `find` and `findIndex` pick the first match, so
    Edit reaches the clicked row only while this holds. A create can break it
    (`CreateMayRepeatId`).
  */
  predicate UniqueIds(users: seq<Record>) {
    forall i, j :: 0 <= i < j < |users| ==> IdOf(users[i]) != IdOf(users[j])
  }

  lemma {:induction false} CountIdUnique(users: seq<Record>, id: int)
    requires UniqueIds(users)
    ensures CountId(users, id) == if FindIndex(users, id) < 0 then 0 else 1
  {
    if users != [] {
      var rest := users[1..];
      assert UniqueIds(rest) by {
        forall i, j | 0 <= i < j < |rest| ensures IdOf(rest[i]) != IdOf(rest[j]) {
          assert rest[i] == users[i + 1] && rest[j] == users[j + 1];
        }
      }
      CountIdUnique(rest, id);
      if HasId(users[0], id) {
        assert forall j :: 0 <= j < |rest| ==> !HasId(rest[j], id) by {
          forall j | 0 <= j < |rest| ensures !HasId(rest[j], id) {
            assert rest[j] == users[j + 1];
          }
        }
      } else {
        assert FindIndex(rest, id) < 0 <==> FindIndex(users, id) < 0 by {
          assert forall j :: 0 < j < |users| ==> users[j] == rest[j - 1];
        }
      }
    }
  }

  /** With unique ids, a delete shortens the cache by exactly one when the id was cached and by none otherwise. */
  lemma {:induction false} RemoveIdUniqueLength(users: seq<Record>, id: int)
    requires UniqueIds(users)
    ensures |RemoveId(users, id)| == |users| - (if FindIndex(users, id) < 0 then 0 else 1)
  {
    RemoveIdLength(users, id);
    CountIdUnique(users, id);
  }

  /** A delete keeps ids unique. */
  lemma {:induction false} RemoveIdKeepsUnique(users: seq<Record>, id: int)
    requires UniqueIds(users)
    ensures UniqueIds(RemoveId(users, id))
  {
    if users != [] {
      var rest := users[1..];
      assert UniqueIds(rest) by {
        forall i, j | 0 <= i < j < |rest| ensures IdOf(rest[i]) != IdOf(rest[j]) {
          assert rest[i] == users[i + 1] && rest[j] == users[j + 1];
        }
      }
      RemoveIdKeepsUnique(rest, id);
      if !HasId(users[0], id) {
        var out := RemoveId(users, id);
        forall i, j | 0 <= i < j < |out| ensures IdOf(out[i]) != IdOf(out[j]) {
          if i == 0 {
            assert out[j] in rest;
            var m :| 0 <= m < |rest| && rest[m] == out[j];
            assert users[m + 1] == out[j];
          }
        }
      }
    }
  }

  /**
    An update keeps ids unique as long as the server does not answer with the id of
    another user: it keeps the id it had, or sends none.
  */
  lemma UpdateKeepsUnique(users: seq<Record>, i: nat, server: Record)
    requires UniqueIds(users) && i < |users| && WellFormed(users[i])
    requires Nullish(IdOf(server)) || IdOf(server) == IdOf(users[i])
    ensures UniqueIds(users[i := Overlay(users[i], server)])
  {
    OverlayLookup(users[i], server, "id");
    if "id" !in Keys(users[i]) {
      LookupMissing(users[i], "id");
    }
    assert IdOf(Overlay(users[i], server)) == IdOf(users[i]);
  }

  /**
    A create never checks the server's id against the cache: when the first user has
    an `id` key and the server answers with an id already cached, ids stop being unique.
  */
  lemma CreateMayRepeatId(users: seq<Record>, server: Record, j: nat, id: int)
    requires users != [] && WellFormed(users[0]) && "id" in Keys(users[0])
    requires j < |users| && HasId(users[j], id) && IdOf(server) == Num(id)
    ensures !UniqueIds(users + [Overlay(Blank(FirstUser(users)), server)])
  {
    CreatedLookup(users[0], server, "id");
    var grown := users + [Overlay(Blank(FirstUser(users)), server)];
    assert IdOf(grown[j]) == IdOf(grown[|users|]);
  }

  // ---------------------------------------------------------------------------
  // Column stability
  // ---------------------------------------------------------------------------

  /** Every cached user has the first user's keys, in the same order: the table's columns fit every row. */
  predicate SameShape(users: seq<Record>) {
    forall i :: 0 <= i < |users| ==> Keys(users[i]) == Keys(users[0])
  }

  lemma UpdateKeepsShape(users: seq<Record>, i: nat, server: Record)
    requires SameShape(users) && i < |users| && WellFormed(users[i])
    ensures SameShape(users[i := Overlay(users[i], server)])
  {
    OverlayKeys(users[i], server);
  }

  lemma CreateKeepsShape(users: seq<Record>, server: Record)
    requires SameShape(users) && (users != [] ==> WellFormed(users[0]))
    ensures SameShape(users + [Overlay(Blank(FirstUser(users)), server)])
  {
    CreatedKeys(users, server);
  }

  lemma DeleteKeepsShape(users: seq<Record>, id: int)
    requires SameShape(users)
    ensures SameShape(RemoveId(users, id))
  {
    var out := RemoveId(users, id);
    forall i | 0 <= i < |out| ensures Keys(out[i]) == Keys(out[0]) {
      assert out[i] in users && out[0] in users;
    }
  }
}
