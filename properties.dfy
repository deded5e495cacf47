/**
 * Properties that relate the cmdlets to each other: what Get-TypeAccelerator
 * reports after Add-TypeAccelerator or Remove-TypeAccelerator, and Remove
 * undoing Add.
 */
module TypeAcceleratorProperties {
  import opened Wrappers
  import opened TypeAccelerators
  import opened AcceleratorOutput
  import opened TypeAcceleratorCmdlets

  /**
   * After an add, looking the name up reports the type it is bound to: the
   * added type for a new name, the old type for a name that was present.
   */
  lemma AddThenLookup(table: map<string, TypeRef>, name: string, ty: TypeRef)
    ensures LookupAll(AddIfAbsent(table, name, ty), [name])
         == [TypeAcceleratorInfo(name, if name in table then table[name] else ty)]
  {
  }

  /** Adding a name that is present leaves the table exactly as it was. */
  lemma AddPresentIsNoOp(table: map<string, TypeRef>, name: string, ty: TypeRef)
    requires name in table
    ensures AddIfAbsent(table, name, ty) == table
  {
  }

  /**
   * Removing, with confirmation, the entry just added under a new name gives
   * back the original table and enumeration order.
   */
  lemma {:induction false} RemoveUndoesAdd(table: map<string, TypeRef>, keys: seq<string>, name: string, ty: TypeRef)
    requires Enumerates(keys, table) && name !in table
    ensures AddIfAbsent(table, name, ty) - ConfirmedNames([TypeAcceleratorInfo(name, ty)], [true]) == table
    ensures Without(keys + [name], ConfirmedNames([TypeAcceleratorInfo(name, ty)], [true])) == keys
  {
    var removed := ConfirmedNames([TypeAcceleratorInfo(name, ty)], [true]);
    assert removed == {name} by {
      ConfirmedNamesMembership([TypeAcceleratorInfo(name, ty)], [true], name);
      assert ConfirmedNames([], []) == {};
    }
    WithoutAbsent(keys, removed);
    assert Without([name], removed) == [];
    assert Without(keys + [name], removed) == Without(keys, removed) + Without([name], removed) by {
      WithoutAppend(keys, [name], removed);
    }
  }

  /**
   * After a removal, a confirmed name is no longer found, and a name no
   * confirmed descriptor carries is found exactly as before.
   */
  lemma {:induction false} RemoveThenLookup(table: map<string, TypeRef>, accelerators: seq<TypeAcceleratorInfo>, confirmed: seq<bool>, name: string)
    requires |confirmed| == |accelerators|
    ensures (exists i :: 0 <= i < |accelerators| && confirmed[i] && accelerators[i].name == name)
        ==> LookupAll(table - ConfirmedNames(accelerators, confirmed), [name]) == []
    ensures (forall i :: 0 <= i < |accelerators| && accelerators[i].name == name ==> !confirmed[i])
        ==> LookupAll(table - ConfirmedNames(accelerators, confirmed), [name]) == LookupAll(table, [name])
  {
    var after := table - ConfirmedNames(accelerators, confirmed);
    ConfirmedNamesMembership(accelerators, confirmed, name);
    assert LookupAll(after, [name]) == LookupOne(after, name) + LookupAll(after, []);
    assert LookupAll(table, [name]) == LookupOne(table, name) + LookupAll(table, []);
  }

  /**
   * The end-to-end scenario on an empty table: add `name` => `ty`, look it
   * up, remove it with confirmation, and look it up again.
   */
  method AddGetRemoveScenario(name: string, ty: TypeRef)
    returns (added: seq<TypeAcceleratorInfo>, found: seq<TypeAcceleratorInfo>, foundAfterRemove: seq<TypeAcceleratorInfo>)
    ensures added == [TypeAcceleratorInfo(name, ty)]
    ensures found == [TypeAcceleratorInfo(name, ty)]
    ensures foundAfterRemove == []
  {
    var reg := new Registry();
    added := AddTypeAccelerator(reg, name, ty, true);
    found := GetTypeAccelerator(reg, Some([name]), None, NameSet);
    AddThenLookup(map[], name, ty);
    ghost var afterAdd := reg.table;
    RemoveTypeAccelerator(reg, found, [true]);
    foundAfterRemove := GetTypeAccelerator(reg, Some([name]), None, NameSet);
    RemoveThenLookup(afterAdd, found, [true], name);
    assert found[0].name == name;
  }

  /**
   * Two names added for the same type are both reported by a reverse lookup
   * of that type, and nothing else is.
   */
  method ReverseLookupScenario(first: string, second: string, ty: TypeRef)
    returns (found: seq<TypeAcceleratorInfo>)
    requires first != second
    ensures TypeAcceleratorInfo(first, ty) in found && TypeAcceleratorInfo(second, ty) in found
    ensures |found| == 2
  {
    var reg := new Registry();
    var _ := AddTypeAccelerator(reg, first, ty, false);
    var _ := AddTypeAccelerator(reg, second, ty, false);
    found := GetTypeAccelerator(reg, None, Some([ty]), TypeSet);
    ReverseLookupAllMembership(reg.table, reg.keys, [ty], TypeAcceleratorInfo(first, ty));
    ReverseLookupAllMembership(reg.table, reg.keys, [ty], TypeAcceleratorInfo(second, ty));
    assert found == EntriesOfType(reg.table, reg.keys, ty) + ReverseLookupAll(reg.table, reg.keys, []);
  }
}
