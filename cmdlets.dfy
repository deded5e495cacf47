/**
 * The ProcessRecord step of Get-TypeAccelerator, Add-TypeAccelerator and
 * Remove-TypeAccelerator.  Each cmdlet works on the shared accelerator table
 * `reg`; what it writes to the pipeline is returned as `output`, in the order
 * written.  Remove-TypeAccelerator's confirmation answers are an input.
 */
module TypeAcceleratorCmdlets {
  import opened Wrappers
  import opened TypeAccelerators
  import opened AcceleratorOutput

  /** The parameter set the binder chose for Get-TypeAccelerator. */
  datatype ParameterSet = NameSet | TypeSet

  /** The binder never binds a parameter of the parameter set it did not choose. */
  predicate BindingConsistent(acceleratorName: Option<seq<string>>, acceleratorType: Option<seq<TypeRef>>, parameterSet: ParameterSet)
  {
    && (parameterSet == NameSet ==> acceleratorType.None?)
    && (parameterSet == TypeSet ==> acceleratorName.None?)
  }

  /**
   * Get-TypeAccelerator: with neither names nor types, every entry of the
   * table; with names, each name the table has, in request order; with
   * types, for each type in turn every entry bound to it.  It declares no
   * `modifies` clause: the table is left as it was.
   */
  method GetTypeAccelerator(reg: Registry, acceleratorName: Option<seq<string>>, acceleratorType: Option<seq<TypeRef>>, parameterSet: ParameterSet)
    returns (output: seq<TypeAcceleratorInfo>)
    requires reg.Valid()
    requires BindingConsistent(acceleratorName, acceleratorType, parameterSet)
    ensures acceleratorName.None? && acceleratorType.None? ==> output == Entries(reg.table, reg.keys)
    ensures acceleratorName.Some? ==> output == LookupAll(reg.table, acceleratorName.value)
    ensures acceleratorType.Some? ==> output == ReverseLookupAll(reg.table, reg.keys, acceleratorType.value)
  {
    if acceleratorName.None? && acceleratorType.None? {
      output := WriteAll(reg);
    } else if parameterSet == NameSet {
      output := WriteByName(reg, acceleratorName.value);
    } else {
      output := WriteByType(reg, acceleratorType.value);
    }
  }

  /** The unfiltered branch of Get-TypeAccelerator: one record per key, in enumeration order. */
  method WriteAll(reg: Registry) returns (output: seq<TypeAcceleratorInfo>)
    requires reg.Valid()
    ensures output == Entries(reg.table, reg.keys)
  {
    output := [];
    for i := 0 to |reg.keys|
      invariant output == Entries(reg.table, reg.keys[..i])
    {
      var k := reg.keys[i];
      output := output + [TypeAcceleratorInfo(k, reg.table[k])];
      EntriesAppend(reg.table, reg.keys[..i], [k]);
      assert reg.keys[..i + 1] == reg.keys[..i] + [k];
    }
    assert reg.keys[..|reg.keys|] == reg.keys;
  }

  /** The name branch of Get-TypeAccelerator: a record for each requested name the table has. */
  method WriteByName(reg: Registry, names: seq<string>) returns (output: seq<TypeAcceleratorInfo>)
    ensures output == LookupAll(reg.table, names)
  {
    output := [];
    for i := 0 to |names|
      invariant output == LookupAll(reg.table, names[..i])
    {
      var name := names[i];
      var result := reg.TryGetValue(name);
      if result.Some? {
        output := output + [TypeAcceleratorInfo(name, result.value)];
      }
      LookupAllAppend(reg.table, names[..i], [name]);
      assert names[..i + 1] == names[..i] + [name];
    }
    assert names[..|names|] == names;
  }

  /** The type branch of Get-TypeAccelerator: for each requested type, a scan of every key. */
  method WriteByType(reg: Registry, types: seq<TypeRef>) returns (output: seq<TypeAcceleratorInfo>)
    requires reg.Valid()
    ensures output == ReverseLookupAll(reg.table, reg.keys, types)
  {
    output := [];
    for i := 0 to |types|
      invariant output == ReverseLookupAll(reg.table, reg.keys, types[..i])
    {
      var ty := types[i];
      var matches := WriteOfType(reg, ty);
      output := output + matches;
      ReverseLookupAllAppend(reg.table, reg.keys, types[..i], [ty]);
      assert types[..i + 1] == types[..i] + [ty];
    }
    assert types[..|types|] == types;
  }

  /** The inner scan of the type branch: every key bound to `ty`, in enumeration order. */
  method WriteOfType(reg: Registry, ty: TypeRef) returns (output: seq<TypeAcceleratorInfo>)
    requires reg.Valid()
    ensures output == EntriesOfType(reg.table, reg.keys, ty)
  {
    output := [];
    for j := 0 to |reg.keys|
      invariant output == EntriesOfType(reg.table, reg.keys[..j], ty)
    {
      var k := reg.keys[j];
      if reg.table[k] == ty {
        output := output + [TypeAcceleratorInfo(k, reg.table[k])];
      }
      EntriesOfTypeAppend(reg.table, reg.keys[..j], [k], ty);
      assert reg.keys[..j + 1] == reg.keys[..j] + [k];
    }
    assert reg.keys[..|reg.keys|] == reg.keys;
  }

  /**
   * Add-TypeAccelerator: binds `name` to `ty` only when the table has no
   * entry for `name`, and then writes the new entry when `passThru` is set.
   * A name already present leaves the table as it was and writes nothing.
   */
  method AddTypeAccelerator(reg: Registry, name: string, ty: TypeRef, passThru: bool)
    returns (output: seq<TypeAcceleratorInfo>)
    requires reg.Valid()
    modifies reg
    ensures reg.Valid()
    ensures reg.table == AddIfAbsent(old(reg.table), name, ty)
    ensures reg.keys == if name in old(reg.table) then old(reg.keys) else old(reg.keys) + [name]
    ensures output == if passThru && name !in old(reg.table) then [TypeAcceleratorInfo(name, ty)] else []
  {
    output := [];
    if reg.TryGetValue(name).None? {
      reg.Add(name, ty);
      if passThru {
        output := output + [TypeAcceleratorInfo(name, ty)];
      }
    }
  }

  /**
   * Remove-TypeAccelerator: for each descriptor in turn, removes the entry
   * with the descriptor's name when `shouldProcess` confirms that descriptor.
   * The table loses exactly the confirmed names; every other entry, and the
   * enumeration order of the survivors, is kept.
   */
  method RemoveTypeAccelerator(reg: Registry, accelerator: seq<TypeAcceleratorInfo>, shouldProcess: seq<bool>)
    requires reg.Valid()
    requires |shouldProcess| == |accelerator|
    modifies reg
    ensures reg.Valid()
    ensures reg.table == old(reg.table) - ConfirmedNames(accelerator, shouldProcess)
    ensures reg.keys == Without(old(reg.keys), ConfirmedNames(accelerator, shouldProcess))
  {
    ghost var original := reg.keys;
    ghost var removed: set<string> := {};
    WithoutAbsent(original, removed);
    for i := 0 to |accelerator|
      invariant reg.Valid()
      invariant removed == ConfirmedNames(accelerator[..i], shouldProcess[..i])
      invariant reg.table == old(reg.table) - removed
      invariant reg.keys == Without(original, removed)
    {
      var name := accelerator[i].name;
      ConfirmedNamesStep(accelerator, shouldProcess, i);
      if shouldProcess[i] {
        MinusMinus(old(reg.table), removed, name);
        reg.Remove(name);
        WithoutWithout(original, removed, {name});
        removed := removed + {name};
      }
    }
    assert accelerator[..|accelerator|] == accelerator;
    assert shouldProcess[..|shouldProcess|] == shouldProcess;
  }
}
