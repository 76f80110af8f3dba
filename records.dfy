/**
  The plain JavaScript objects the page keeps in its user cache, as `resp.json()`
  hands them over: a record is the sequence of its own properties in the order a
  `for (const key in …)` loop enumerates them, with no two properties sharing a
  key. Reading an own property that is not there gives `undefined`; assigning one
  overwrites it in place when it exists and adds it at the end otherwise. Keys that
  name members of `Object.prototype` (`toString`, `constructor`, `__proto__`, …),
  which JavaScript reads through the prototype or assigns through a setter, are
  outside this model.
*/
module Records {

  /**
    A property value. `Obj` is a nested object (such as a user's address), carried
    along unchanged. JSON arrays have no case of their own: the cache never reads
    inside a nested value, so one would be carried as an `Obj`.
  */
  datatype Value =
    | Undefined
    | Null
    | Str(s: string)
    | Num(n: int)
    | Bool(b: bool)
    | Obj(fields: seq<Field>)

  datatype Field = Field(key: string, value: Value)

  type Record = seq<Field>

  /** The values for which `a ?? b` falls back to `b`: only `null` and `undefined`. */
  predicate Nullish(v: Value) {
    v.Undefined? || v.Null?
  }

  /**
    JavaScript's `a ?? b`: `a` unless it is `null` or `undefined`. Unlike `a || b`,
    the falsy values `""`, `0` and `false` are kept. The result is nullish only when
    both operands are.
  */
  function Coalesce(a: Value, b: Value): (c: Value)
    ensures c == a || c == b
    ensures c != a ==> Nullish(a)
    ensures Nullish(a) ==> c == b
    ensures a == Str("") || a == Num(0) || a == Bool(false) ==> c == a
    ensures Nullish(c) ==> Nullish(a) && Nullish(b)
  {
    if Nullish(a) then b else a
  }

  /** The keys of a record, in enumeration order. */
  function Keys(r: Record): seq<string> {
    seq(|r|, i requires 0 <= i < |r| => r[i].key)
  }

  /** An object never has two own properties with the same key. */
  predicate WellFormed(r: Record) {
    forall i, j :: 0 <= i < j < |r| ==> r[i].key != r[j].key
  }

  /**
    `r[k]` for an own property `k`: its value, or `undefined` when `r` has no such
    property. Properties inherited from `Object.prototype` are not modelled.
  */
  function Lookup(r: Record, k: string): Value {
    if r == [] then Undefined
    else if r[0].key == k then r[0].value
    else Lookup(r[1..], k)
  }

  lemma {:induction false} LookupAt(r: Record, i: nat)
    requires WellFormed(r) && i < |r|
    ensures Lookup(r, r[i].key) == r[i].value
  {
    if i > 0 {
      assert r[0].key != r[i].key;
      assert WellFormed(r[1..]) by {
        forall a, b | 0 <= a < b < |r| - 1 ensures r[1..][a].key != r[1..][b].key {
          assert r[a + 1].key != r[b + 1].key;
        }
      }
      LookupAt(r[1..], i - 1);
    }
  }

  /** Reading a key that the object does not have gives `undefined`. */
  lemma {:induction false} LookupMissing(r: Record, k: string)
    requires k !in Keys(r)
    ensures Lookup(r, k) == Undefined
  {
    if r != [] {
      assert r[0].key == Keys(r)[0];
      assert k !in Keys(r[1..]) by {
        forall i | 0 <= i < |r| - 1 ensures Keys(r[1..])[i] == Keys(r)[i + 1] { }
      }
      LookupMissing(r[1..], k);
    }
  }

  /** Dropping the first property of an object leaves an object that lacks that property's key. */
  lemma TailWellFormed(r: Record)
    requires WellFormed(r) && r != []
    ensures WellFormed(r[1..]) && r[0].key !in Keys(r[1..])
  {
    forall a, b | 0 <= a < b < |r| - 1 ensures r[1..][a].key != r[1..][b].key {
      assert r[a + 1].key != r[b + 1].key;
    }
    forall i | 0 <= i < |r| - 1 ensures Keys(r[1..])[i] != r[0].key {
      assert r[i + 1].key != r[0].key;
    }
  }

  /** Putting a property with a new key in front of an object keeps its keys distinct. */
  lemma ConsWellFormed(f: Field, r: Record)
    requires WellFormed(r) && f.key !in Keys(r)
    ensures WellFormed([f] + r)
  {
    var t := [f] + r;
    forall a, b | 0 <= a < b < |t| ensures t[a].key != t[b].key {
      if a == 0 {
        assert t[b].key == Keys(r)[b - 1];
      } else {
        assert t[a] == r[a - 1] && t[b] == r[b - 1];
      }
    }
  }

  lemma ConsKeys(f: Field, r: Record)
    ensures Keys([f] + r) == [f.key] + Keys(r)
  {
  }

  /**
    `r[k] = v` for a key that is not a member of `Object.prototype`: afterwards `k`
    reads as `v` and every other key reads as before; an existing property keeps its
    position, a new one is added last.
  */
  function SetField(r: Record, k: string, v: Value): (r': Record)
    ensures Lookup(r', k) == v
    ensures forall k' :: k' != k ==> Lookup(r', k') == Lookup(r, k')
    ensures k in Keys(r) ==> Keys(r') == Keys(r)
    ensures k !in Keys(r) ==> r' == r + [Field(k, v)]
    ensures WellFormed(r) ==> WellFormed(r')
  {
    if r == [] then [Field(k, v)]
    else if r[0].key == k then
      assert Keys(r)[0] == k;
      [Field(k, v)] + r[1..]
    else
      var rest := SetField(r[1..], k, v);
      assert r == [r[0]] + r[1..];
      ConsKeys(r[0], r[1..]);
      ConsKeys(r[0], rest);
      assert WellFormed(r) ==> WellFormed([r[0]] + rest) by {
        if WellFormed(r) {
          TailWellFormed(r);
          if k !in Keys(r[1..]) {
            assert Keys(rest) == Keys(r[1..]) + [k];
          }
          ConsWellFormed(r[0], rest);
        }
      }
      [r[0]] + rest
  }
}
