/**
 * The process-wide type-accelerator table that the cmdlets read and change:
 * a dictionary from accelerator name to type.  Its implementation lives
 * outside TypeAcceleratorCmdlets.cs; this module gives it the dictionary
 * semantics the cmdlets rely on (lookup, add, remove, enumeration of keys).
 */
module TypeAccelerators {
  import opened Wrappers

  /** An opaque reference to a type of the host's type system; only compared for equality. */
  datatype TypeRef = TypeRef(handle: nat)

  /** No key occurs twice in `keys`. */
  predicate Distinct(keys: seq<string>)
  {
    forall i, j :: 0 <= i < j < |keys| ==> keys[i] != keys[j]
  }

  /** `keys` lists exactly the keys of `table`, each once. */
  ghost predicate Enumerates(keys: seq<string>, table: map<string, TypeRef>)
  {
    Distinct(keys) && forall k :: k in keys <==> k in table
  }

  /** `keys` with the elements of `removed` dropped; the others keep their order. */
  function Without(keys: seq<string>, removed: set<string>): (r: seq<string>)
    ensures forall k :: k in r <==> k in keys && k !in removed
    ensures |r| <= |keys|
    ensures Distinct(keys) ==> Distinct(r)
  {
    if keys == [] then []
    else (if keys[0] in removed then [] else [keys[0]]) + Without(keys[1..], removed)
  }

  /** Dropping one set of keys and then another is dropping their union. */
  lemma {:induction false} WithoutWithout(keys: seq<string>, a: set<string>, b: set<string>)
    ensures Without(Without(keys, a), b) == Without(keys, a + b)
  {
    if keys != [] {
      var x, tail := keys[0], keys[1..];
      var rest := Without(tail, a);
      WithoutWithout(tail, a, b);
      if x in a {
        assert Without(keys, a) == rest;
        assert Without(keys, a + b) == Without(tail, a + b);
      } else {
        var once := [x] + rest;
        assert Without(keys, a) == once;
        assert once[0] == x && once[1..] == rest;
        if x in b {
          assert Without(once, b) == Without(rest, b);
          assert Without(keys, a + b) == Without(tail, a + b);
        } else {
          assert Without(once, b) == [x] + Without(rest, b);
          assert Without(keys, a + b) == [x] + Without(tail, a + b);
        }
      }
    }
  }

  /** Dropping keys that do not occur changes nothing. */
  lemma {:induction false} WithoutAbsent(keys: seq<string>, removed: set<string>)
    requires forall k :: k in keys ==> k !in removed
    ensures Without(keys, removed) == keys
  {
    if keys != [] {
      WithoutAbsent(keys[1..], removed);
      assert [keys[0]] + keys[1..] == keys;
    }
  }

  /** Dropping keys from `a + b` drops them from `a` and from `b`. */
  lemma {:induction false} WithoutAppend(a: seq<string>, b: seq<string>, removed: set<string>)
    ensures Without(a + b, removed) == Without(a, removed) + Without(b, removed)
  {
    if a == [] {
      assert a + b == b;
    } else {
      assert (a + b)[0] == a[0] && (a + b)[1..] == a[1..] + b;
      WithoutAppend(a[1..], b, removed);
    }
  }

  /** Removing a set of keys and then one more key is removing their union. */
  lemma MinusMinus(table: map<string, TypeRef>, removed: set<string>, name: string)
    ensures (table - removed) - {name} == table - (removed + {name})
  {
  }

  /** A duplicate-free enumeration of a table is as long as the table is large. */
  lemma {:induction false} EnumerationSize(keys: seq<string>, table: map<string, TypeRef>)
    requires Enumerates(keys, table)
    ensures |keys| == |table|
  {
    if keys != [] {
      var rest := table - {keys[0]};
      assert Enumerates(keys[1..], rest) by {
        forall k ensures k in keys[1..] <==> k in rest {
          if k in keys[1..] {
            var j :| 0 <= j < |keys[1..]| && keys[1..][j] == k;
            assert keys[j + 1] == k;
          }
          if k in rest {
            var j :| 0 <= j < |keys| && keys[j] == k;
            assert j != 0;
            assert keys[1..][j - 1] == k;
          }
        }
      }
      EnumerationSize(keys[1..], rest);
    }
  }

  /**
   * The accelerator table.  `table` binds names to types; `keys` is the order
   * in which the dictionary enumerates its keys.
   */
  class Registry {
    var table: map<string, TypeRef>
    var keys: seq<string>

    ghost predicate Valid()
      reads this
    {
      Enumerates(keys, table)
    }

    /** An empty table; the host's built-in accelerators are not part of this model. */
    constructor ()
      ensures Valid()
      ensures table == map[] && keys == []
    {
      table := map[];
      keys := [];
    }

    /** Dictionary lookup: the type bound to `name`, if there is one. */
    function TryGetValue(name: string): (r: Option<TypeRef>)
      reads this
      ensures r.Some? <==> name in table
      ensures r.Some? ==> r.value == table[name]
    {
      if name in table then Some(table[name]) else None
    }

    /** Binds `name` to `ty`; a name not yet present is enumerated last. */
    method Add(name: string, ty: TypeRef)
      requires Valid()
      modifies this
      ensures Valid()
      ensures table == old(table)[name := ty]
      ensures keys == if name in old(table) then old(keys) else old(keys) + [name]
    {
      if name !in table {
        keys := keys + [name];
      }
      table := table[name := ty];
    }

    /** Drops the binding of `name`; nothing happens when there is none. */
    method Remove(name: string)
      requires Valid()
      modifies this
      ensures Valid()
      ensures table == old(table) - {name}
      ensures keys == Without(old(keys), {name})
    {
      table := table - {name};
      keys := Without(keys, {name});
    }
  }
}
