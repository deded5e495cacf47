/**
 * What the three type-accelerator cmdlets emit and how they change the table,
 * stated as functions of the table's contents and the cmdlets' arguments,
 * together with the properties those functions have.
 */
module AcceleratorOutput {
  import opened TypeAccelerators

  /** The record the cmdlets emit, and the descriptor Remove-TypeAccelerator takes. */
  datatype TypeAcceleratorInfo = TypeAcceleratorInfo(name: string, ty: TypeRef)

  // ----- Get-TypeAccelerator without a filter -----

  /** One record per key of `keys`, in that order, carrying the key's type. */
  function Entries(table: map<string, TypeRef>, keys: seq<string>): (r: seq<TypeAcceleratorInfo>)
    requires forall k :: k in keys ==> k in table
    ensures |r| == |keys|
    ensures forall i :: 0 <= i < |keys| ==> r[i] == TypeAcceleratorInfo(keys[i], table[keys[i]])
  {
    if keys == [] then []
    else [TypeAcceleratorInfo(keys[0], table[keys[0]])] + Entries(table, keys[1..])
  }

  /** Enumerating `a + b` emits what `a` emits, then what `b` emits. */
  lemma EntriesAppend(table: map<string, TypeRef>, a: seq<string>, b: seq<string>)
    requires forall k :: k in a + b ==> k in table
    ensures Entries(table, a + b) == Entries(table, a) + Entries(table, b)
  {
  }

  /**
   * Enumerating the whole table emits exactly one record `(k, table[k])` for
   * every key `k`, and nothing else.
   */
  lemma {:induction false} EntriesExact(table: map<string, TypeRef>, keys: seq<string>)
    requires Enumerates(keys, table)
    ensures |Entries(table, keys)| == |table|
    ensures forall e :: e in Entries(table, keys) <==> e.name in table && e.ty == table[e.name]
    ensures forall i, j :: 0 <= i < j < |keys| ==> Entries(table, keys)[i] != Entries(table, keys)[j]
  {
    var r := Entries(table, keys);
    EnumerationSize(keys, table);
    forall e: TypeAcceleratorInfo | e.name in table && e.ty == table[e.name] ensures e in r {
      var i :| 0 <= i < |keys| && keys[i] == e.name;
      assert r[i] == e;
    }
  }

  // ----- Get-TypeAccelerator -Name -----

  /** The record for one requested name: its type when the table has it, nothing otherwise. */
  function LookupOne(table: map<string, TypeRef>, name: string): (r: seq<TypeAcceleratorInfo>)
    ensures |r| <= 1
    ensures r != [] <==> name in table
    ensures r != [] ==> r[0] == TypeAcceleratorInfo(name, table[name])
  {
    if name in table then [TypeAcceleratorInfo(name, table[name])] else []
  }

  /** The records for each requested name in turn. */
  function LookupAll(table: map<string, TypeRef>, names: seq<string>): (r: seq<TypeAcceleratorInfo>)
    ensures |r| <= |names|
    ensures forall e :: e in r ==> e.name in names && e.name in table && e.ty == table[e.name]
  {
    if names == [] then []
    else LookupOne(table, names[0]) + LookupAll(table, names[1..])
  }

  /** Requests are answered in request order: `a + b` answers `a`, then `b`. */
  lemma {:induction false} LookupAllAppend(table: map<string, TypeRef>, a: seq<string>, b: seq<string>)
    ensures LookupAll(table, a + b) == LookupAll(table, a) + LookupAll(table, b)
  {
    if a != [] {
      assert (a + b)[0] == a[0] && (a + b)[1..] == a[1..] + b;
      LookupAllAppend(table, a[1..], b);
    } else {
      assert a + b == b;
    }
  }

  /** A requested name that the table has is answered with its type. */
  lemma {:induction false} LookupAllComplete(table: map<string, TypeRef>, names: seq<string>, name: string)
    requires name in names && name in table
    ensures TypeAcceleratorInfo(name, table[name]) in LookupAll(table, names)
  {
    if names[0] != name {
      LookupAllComplete(table, names[1..], name);
    }
  }

  /** Names the table does not have produce no output. */
  lemma {:induction false} LookupAllAbsent(table: map<string, TypeRef>, names: seq<string>)
    requires forall n :: n in names ==> n !in table
    ensures LookupAll(table, names) == []
  {
    if names != [] {
      LookupAllAbsent(table, names[1..]);
    }
  }

  // ----- Get-TypeAccelerator -Type -----

  /** The records, in enumeration order, of the keys bound to `ty`. */
  function EntriesOfType(table: map<string, TypeRef>, keys: seq<string>, ty: TypeRef): (r: seq<TypeAcceleratorInfo>)
    requires forall k :: k in keys ==> k in table
    ensures |r| <= |keys|
    ensures forall e :: e in r <==> e.name in keys && e.ty == ty && table[e.name] == ty
  {
    if keys == [] then []
    else
      (if table[keys[0]] == ty then [TypeAcceleratorInfo(keys[0], table[keys[0]])] else [])
      + EntriesOfType(table, keys[1..], ty)
  }

  /** Scanning `a + b` emits what scanning `a` emits, then what scanning `b` emits. */
  lemma {:induction false} EntriesOfTypeAppend(table: map<string, TypeRef>, a: seq<string>, b: seq<string>, ty: TypeRef)
    requires forall k :: k in a + b ==> k in table
    ensures EntriesOfType(table, a + b, ty) == EntriesOfType(table, a, ty) + EntriesOfType(table, b, ty)
  {
    if a != [] {
      assert (a + b)[0] == a[0] && (a + b)[1..] == a[1..] + b;
      EntriesOfTypeAppend(table, a[1..], b, ty);
    } else {
      assert a + b == b;
    }
  }

  /** Over a duplicate-free key order, each matching key is emitted exactly once. */
  lemma {:induction false} EntriesOfTypeCount(table: map<string, TypeRef>, keys: seq<string>, ty: TypeRef, name: string, found: TypeRef)
    requires Distinct(keys) && forall k :: k in keys ==> k in table
    ensures multiset(EntriesOfType(table, keys, ty))[TypeAcceleratorInfo(name, found)]
         == if name in keys && found == ty && table[name] == ty then 1 else 0
  {
    if keys != [] {
      var tail := keys[1..];
      assert Distinct(tail);
      EntriesOfTypeCount(table, tail, ty, name, found);
      if keys[0] == name {
        assert name !in tail;
      }
      assert name in keys <==> name == keys[0] || name in tail;
    }
  }

  /** For each requested type in turn, the records of every key bound to it. */
  function ReverseLookupAll(table: map<string, TypeRef>, keys: seq<string>, types: seq<TypeRef>): (r: seq<TypeAcceleratorInfo>)
    requires forall k :: k in keys ==> k in table
    ensures forall e :: e in r ==> e.ty in types && e.name in keys && table[e.name] == e.ty
  {
    if types == [] then []
    else EntriesOfType(table, keys, types[0]) + ReverseLookupAll(table, keys, types[1..])
  }

  /** Requests are answered in request order: `a + b` answers `a`, then `b`. */
  lemma {:induction false} ReverseLookupAllAppend(table: map<string, TypeRef>, keys: seq<string>, a: seq<TypeRef>, b: seq<TypeRef>)
    requires forall k :: k in keys ==> k in table
    ensures ReverseLookupAll(table, keys, a + b) == ReverseLookupAll(table, keys, a) + ReverseLookupAll(table, keys, b)
  {
    if a != [] {
      assert (a + b)[0] == a[0] && (a + b)[1..] == a[1..] + b;
      ReverseLookupAllAppend(table, keys, a[1..], b);
    } else {
      assert a + b == b;
    }
  }

  /**
   * Reverse lookup over the whole table emits the record of a key bound to a
   * requested type once per time that type was requested (no deduplication),
   * and emits no other record.
   */
  lemma {:induction false} ReverseLookupAllCount(table: map<string, TypeRef>, keys: seq<string>, types: seq<TypeRef>, name: string, found: TypeRef)
    requires Enumerates(keys, table)
    ensures multiset(ReverseLookupAll(table, keys, types))[TypeAcceleratorInfo(name, found)]
         == if name in table && table[name] == found then multiset(types)[found] else 0
  {
    if types != [] {
      ReverseLookupAllCount(table, keys, types[1..], name, found);
      EntriesOfTypeCount(table, keys, types[0], name, found);
      assert types == [types[0]] + types[1..];
      assert multiset(types) == multiset{types[0]} + multiset(types[1..]);
    }
  }

  /** Every key bound to a requested type is reported, and nothing else is. */
  lemma ReverseLookupAllMembership(table: map<string, TypeRef>, keys: seq<string>, types: seq<TypeRef>, e: TypeAcceleratorInfo)
    requires Enumerates(keys, table)
    ensures e in ReverseLookupAll(table, keys, types) <==> e.ty in types && e.name in table && table[e.name] == e.ty
  {
  }

  // ----- Add-TypeAccelerator -----

  /**
   * The table after adding `name` => `ty` only when `name` is absent: an
   * existing binding is never overwritten and no other binding changes.
   */
  function AddIfAbsent(table: map<string, TypeRef>, name: string, ty: TypeRef): (r: map<string, TypeRef>)
    ensures r.Keys == table.Keys + {name}
    ensures forall k :: k in table ==> r[k] == table[k]
    ensures name !in table ==> r[name] == ty
  {
    if name in table then table else table[name := ty]
  }

  // ----- Remove-TypeAccelerator -----

  /** The set of names of the descriptors whose removal was confirmed. */
  function ConfirmedNames(accelerators: seq<TypeAcceleratorInfo>, confirmed: seq<bool>): (r: set<string>)
    requires |confirmed| == |accelerators|
    ensures |r| <= |accelerators|
  {
    if accelerators == [] then {}
    else (if confirmed[0] then {accelerators[0].name} else {}) + ConfirmedNames(accelerators[1..], confirmed[1..])
  }

  /** A name is removed exactly when some descriptor carrying it was confirmed. */
  lemma {:induction false} ConfirmedNamesMembership(accelerators: seq<TypeAcceleratorInfo>, confirmed: seq<bool>, name: string)
    requires |confirmed| == |accelerators|
    ensures name in ConfirmedNames(accelerators, confirmed)
        <==> exists i :: 0 <= i < |accelerators| && confirmed[i] && accelerators[i].name == name
  {
    if accelerators != [] {
      var a, c := accelerators[1..], confirmed[1..];
      ConfirmedNamesMembership(a, c, name);
      if name in ConfirmedNames(a, c) {
        var j :| 0 <= j < |a| && c[j] && a[j].name == name;
        assert confirmed[j + 1] && accelerators[j + 1].name == name;
      }
      if i :| 0 <= i < |accelerators| && confirmed[i] && accelerators[i].name == name {
        if i > 0 {
          assert c[i - 1] && a[i - 1].name == name;
        }
      }
    }
  }

  /** Confirming `a1` then `a2` removes the names of both parts. */
  lemma {:induction false} ConfirmedNamesAppend(a1: seq<TypeAcceleratorInfo>, c1: seq<bool>, a2: seq<TypeAcceleratorInfo>, c2: seq<bool>)
    requires |c1| == |a1| && |c2| == |a2|
    ensures ConfirmedNames(a1 + a2, c1 + c2) == ConfirmedNames(a1, c1) + ConfirmedNames(a2, c2)
  {
    if a1 == [] {
      assert a1 + a2 == a2 && c1 + c2 == c2;
    } else {
      assert (a1 + a2)[0] == a1[0] && (a1 + a2)[1..] == a1[1..] + a2;
      assert (c1 + c2)[0] == c1[0] && (c1 + c2)[1..] == c1[1..] + c2;
      ConfirmedNamesAppend(a1[1..], c1[1..], a2, c2);
    }
  }

  /** Confirming one more descriptor adds its name exactly when it was confirmed. */
  lemma ConfirmedNamesStep(accelerators: seq<TypeAcceleratorInfo>, confirmed: seq<bool>, i: nat)
    requires |confirmed| == |accelerators| && i < |accelerators|
    ensures ConfirmedNames(accelerators[..i + 1], confirmed[..i + 1])
         == ConfirmedNames(accelerators[..i], confirmed[..i]) + (if confirmed[i] then {accelerators[i].name} else {})
  {
    ConfirmedNamesAppend(accelerators[..i], confirmed[..i], [accelerators[i]], [confirmed[i]]);
    assert accelerators[..i + 1] == accelerators[..i] + [accelerators[i]];
    assert confirmed[..i + 1] == confirmed[..i] + [confirmed[i]];
  }

  /**
   * Which names are removed depends only on the descriptors' names and the
   * confirmations: the descriptors' types are never consulted.
   */
  lemma {:induction false} ConfirmedNamesIgnoreType(a: seq<TypeAcceleratorInfo>, b: seq<TypeAcceleratorInfo>, confirmed: seq<bool>)
    requires |a| == |b| == |confirmed|
    requires forall i :: 0 <= i < |a| ==> a[i].name == b[i].name
    ensures ConfirmedNames(a, confirmed) == ConfirmedNames(b, confirmed)
  {
    if a != [] {
      assert a[0].name == b[0].name;
      ConfirmedNamesIgnoreType(a[1..], b[1..], confirmed[1..]);
    }
  }
}
