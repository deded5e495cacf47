# Type-accelerator cmdlets, modelled in Dafny

PowerShell keeps a process-wide table of *type accelerators*: short names
(such as an alias for an integer type) bound to types of the host's type
system. Three cmdlets work on that table:

- **Get-TypeAccelerator** writes every entry when called with no filter.
  With `-Name` it looks up each requested name exactly. With `-Type` it scans
  the table, once per requested type, for every name bound to that type.
- **Add-TypeAccelerator** binds a name to a type only when the name is not
  yet in the table. It never overwrites an entry. It writes the new entry
  back only when `-PassThru` is set.
- **Remove-TypeAccelerator** walks a list of `TypeAcceleratorInfo`
  descriptors. It removes each descriptor's *name* when that descriptor is
  confirmed. The descriptor's type is never compared with the table.

The model has five modules:

- `Wrappers` (wrappers.dfy): `Option`, which stands for a null array or a
  failed lookup.
- `TypeAccelerators` (type_accelerators.dfy): the shared table. The class
  `Registry` has two fields. `table: map<string, TypeRef>` holds the
  bindings. `keys: seq<string>` is the order in which the dictionary
  enumerates its keys. `Valid()` says that `keys` lists every key of `table`
  exactly once. `TypeRef` is an opaque handle that is only compared for
  equality.
- `AcceleratorOutput` (accelerator_output.dfy): the records the cmdlets
  write (`TypeAcceleratorInfo`). It also holds the functions that say what
  each cmdlet writes or removes, and the lemmas about them.
- `TypeAcceleratorCmdlets` (cmdlets.dfy): the three `ProcessRecord` bodies
  as methods on a `Registry`. Each one uses the same loops as the source.
  Everything passed to `WriteObject` is returned, in order, as
  `output: seq<TypeAcceleratorInfo>`. `ShouldProcess` becomes the input
  `shouldProcess: seq<bool>`, one answer per descriptor.
- `TypeAcceleratorProperties` (properties.dfy): lemmas that relate the
  cmdlets to each other, plus two end-to-end scenarios.

Get-TypeAccelerator has no `modifies` clause, so the verifier guarantees
that it leaves the table unchanged in every mode.

`TypeAcceleratorInfo` (lines 16-43) is modelled as a datatype
`TypeAcceleratorInfo(name, ty)`. Its constructor stores exactly the given
name and type by construction, which is all that lines 30-34 do.

Name lookup is an exact `TryGetValue` for each requested name (line 83);
no wildcard matching takes place. All three modes of Get-TypeAccelerator
read the table as it is at the time (lines 73, 83, 91); no snapshot is
taken.

## Model

| member | source | states |
|---|---|---|
| `TypeAccelerators.Registry.TryGetValue` | src/System.Management.Automation/engine/parser/TypeAcceleratorCmdlets.cs:83 | The lookup yields a type exactly when the name is a key of the table, and then it yields the bound type |
| `TypeAccelerators.Registry.Add` | src/System.Management.Automation/engine/parser/TypeAcceleratorCmdlets.cs:132 | The table binds the name to the type. A name that was not yet present is enumerated last. The table stays a duplicate-free enumeration |
| `TypeAccelerators.Registry.Remove` | src/System.Management.Automation/engine/parser/TypeAcceleratorCmdlets.cs:162 | The name's binding is gone and nothing else changes. The surviving keys keep their order. An absent name is a no-op |
| `TypeAccelerators.Without` | src/System.Management.Automation/engine/parser/TypeAcceleratorCmdlets.cs:162 | The surviving enumeration holds exactly the keys not removed, with no duplicates and no new keys |
| `TypeAccelerators.EnumerationSize` | src/System.Management.Automation/engine/parser/TypeAcceleratorCmdlets.cs:73 | Enumerating the keys without repeats gives exactly as many keys as the table has entries |
| `AcceleratorOutput.Entries` | src/System.Management.Automation/engine/parser/TypeAcceleratorCmdlets.cs:73-76 | The unfiltered enumeration writes one record per key, at that key's position, carrying the key and its bound type |
| `AcceleratorOutput.EntriesAppend` | src/System.Management.Automation/engine/parser/TypeAcceleratorCmdlets.cs:73-76 | Enumerating two runs of keys writes the records of the first run, then those of the second |
| `AcceleratorOutput.EntriesExact` | src/System.Management.Automation/engine/parser/TypeAcceleratorCmdlets.cs:71-77 | With no filter, Get writes exactly one record `(k, table[k])` for every key `k`, and nothing else. The output has as many records as the table has entries and no duplicates |
| `AcceleratorOutput.LookupOne` | src/System.Management.Automation/engine/parser/TypeAcceleratorCmdlets.cs:83-85 | One requested name yields at most one record. The record exists iff the name is in the table, and it carries the name as supplied with its bound type |
| `AcceleratorOutput.LookupAll` | src/System.Management.Automation/engine/parser/TypeAcceleratorCmdlets.cs:82-86 | By-name output has at most one record per requested name. Every record is for a requested name that is in the table, carrying its bound type |
| `AcceleratorOutput.LookupAllAppend` | src/System.Management.Automation/engine/parser/TypeAcceleratorCmdlets.cs:82-86 | By-name output follows request order: requests `a + b` yield the answers to `a`, then those to `b` |
| `AcceleratorOutput.LookupAllComplete` | src/System.Management.Automation/engine/parser/TypeAcceleratorCmdlets.cs:82-86 | Every requested name that is in the table is reported with its bound type |
| `AcceleratorOutput.LookupAllAbsent` | src/System.Management.Automation/engine/parser/TypeAcceleratorCmdlets.cs:83 | Requested names that are all absent produce no output and no error |
| `AcceleratorOutput.EntriesOfType` | src/System.Management.Automation/engine/parser/TypeAcceleratorCmdlets.cs:91-95 | One scan for a type writes a record iff it is for a scanned key bound to that type, and the record carries that type |
| `AcceleratorOutput.EntriesOfTypeAppend` | src/System.Management.Automation/engine/parser/TypeAcceleratorCmdlets.cs:91-95 | Scanning two runs of keys writes the matches of the first run, then those of the second |
| `AcceleratorOutput.EntriesOfTypeCount` | src/System.Management.Automation/engine/parser/TypeAcceleratorCmdlets.cs:91-95 | Over a duplicate-free key order, one scan writes each matching key exactly once and nothing else |
| `AcceleratorOutput.ReverseLookupAll` | src/System.Management.Automation/engine/parser/TypeAcceleratorCmdlets.cs:90-96 | The by-type output (for each requested type in turn, the records of every key bound to it) holds only records of keys bound to a requested type, carrying that type; completeness, multiplicity and request order are the three lemmas below |
| `AcceleratorOutput.ReverseLookupAllAppend` | src/System.Management.Automation/engine/parser/TypeAcceleratorCmdlets.cs:90-96 | By-type output follows request order: types `a + b` yield the matches for `a`, then those for `b` |
| `AcceleratorOutput.ReverseLookupAllCount` | src/System.Management.Automation/engine/parser/TypeAcceleratorCmdlets.cs:90-96 | Each key bound to a type appears once for every time that type was requested, with no deduplication. No other record appears |
| `AcceleratorOutput.ReverseLookupAllMembership` | src/System.Management.Automation/engine/parser/TypeAcceleratorCmdlets.cs:90-96 | A record is written iff its type was requested and its name is bound to that type. So all names bound to one type appear |
| `AcceleratorOutput.AddIfAbsent` | src/System.Management.Automation/engine/parser/TypeAcceleratorCmdlets.cs:130-132 | After an add, the keys are the old keys plus the name. Every existing binding is kept, including the name's own, so nothing is overwritten. A new name is bound to the given type |
| `AcceleratorOutput.ConfirmedNames` | src/System.Management.Automation/engine/parser/TypeAcceleratorCmdlets.cs:158-163 | The set of removed names has no more elements than there are descriptors |
| `AcceleratorOutput.ConfirmedNamesMembership` | src/System.Management.Automation/engine/parser/TypeAcceleratorCmdlets.cs:158-163 | A name is removed iff some descriptor carrying that name was confirmed |
| `AcceleratorOutput.ConfirmedNamesAppend` | src/System.Management.Automation/engine/parser/TypeAcceleratorCmdlets.cs:158-163 | Processing two runs of descriptors removes the names removed by each run |
| `AcceleratorOutput.ConfirmedNamesStep` | src/System.Management.Automation/engine/parser/TypeAcceleratorCmdlets.cs:160-163 | One more descriptor adds its name to the removed set exactly when it is confirmed |
| `AcceleratorOutput.ConfirmedNamesIgnoreType` | src/System.Management.Automation/engine/parser/TypeAcceleratorCmdlets.cs:160-162 | What is removed depends only on the descriptors' names and the confirmations, never on their types |
| `TypeAcceleratorCmdlets.GetTypeAccelerator` | src/System.Management.Automation/engine/parser/TypeAcceleratorCmdlets.cs:68-98 | With neither filter, the output is the whole enumeration. With names, it is the by-name answers in request order. With types, it is the by-type scans in request order. The table is not modified |
| `TypeAcceleratorCmdlets.WriteAll` | src/System.Management.Automation/engine/parser/TypeAcceleratorCmdlets.cs:71-77 | The loop over the keys writes exactly the whole enumeration, in key order |
| `TypeAcceleratorCmdlets.WriteByName` | src/System.Management.Automation/engine/parser/TypeAcceleratorCmdlets.cs:80-87 | The loop over requested names writes exactly the by-name answers, in request order |
| `TypeAcceleratorCmdlets.WriteByType` | src/System.Management.Automation/engine/parser/TypeAcceleratorCmdlets.cs:88-97 | The outer loop over requested types writes exactly the by-type scans, in request order |
| `TypeAcceleratorCmdlets.WriteOfType` | src/System.Management.Automation/engine/parser/TypeAcceleratorCmdlets.cs:91-95 | The inner loop over the keys writes exactly the records of the keys bound to the type, in enumeration order |
| `TypeAcceleratorCmdlets.AddTypeAccelerator` | src/System.Management.Automation/engine/parser/TypeAcceleratorCmdlets.cs:128-138 | The new table is the add-if-absent of the old one, and a new name is enumerated last. The output is `[(name, type)]` iff PassThru is set and the name was absent, and is empty otherwise |
| `TypeAcceleratorCmdlets.RemoveTypeAccelerator` | src/System.Management.Automation/engine/parser/TypeAcceleratorCmdlets.cs:156-165 | The new table is the old one minus the names of the confirmed descriptors. Unconfirmed descriptors leave their entries alone. The survivors keep their enumeration order |
| `TypeAcceleratorProperties.AddThenLookup` | src/System.Management.Automation/engine/parser/TypeAcceleratorCmdlets.cs:130-136 | After an add, a lookup of the name reports the added type if the name was new, and the old type otherwise |
| `TypeAcceleratorProperties.AddPresentIsNoOp` | src/System.Management.Automation/engine/parser/TypeAcceleratorCmdlets.cs:130-137 | Adding a name that is already present leaves the table exactly unchanged, even when the type differs |
| `TypeAcceleratorProperties.RemoveUndoesAdd` | src/System.Management.Automation/engine/parser/TypeAcceleratorCmdlets.cs:128-165 | A confirmed removal of a freshly added name restores both the original table and its enumeration order |
| `TypeAcceleratorProperties.RemoveThenLookup` | src/System.Management.Automation/engine/parser/TypeAcceleratorCmdlets.cs:156-165 | After a removal, a confirmed name is no longer found. A name that no confirmed descriptor carries is found exactly as before |
| `TypeAcceleratorProperties.AddGetRemoveScenario` | src/System.Management.Automation/engine/parser/TypeAcceleratorCmdlets.cs:68-165 | Add with PassThru on an empty table writes `[(name, type)]`, and a lookup then finds `[(name, type)]`. After a confirmed removal, the lookup finds nothing |
| `TypeAcceleratorProperties.ReverseLookupScenario` | src/System.Management.Automation/engine/parser/TypeAcceleratorCmdlets.cs:90-96 | Two distinct names added for one type are both reported by a by-type lookup of that type, and nothing else is |

## Left out

- The implementation of the accelerator table is not part of this model.
  That covers its built-in seed set, its locking and the rest of the
  `TypeAccelerators` class. The model starts from an empty `Registry`.
- Name comparison is modelled as plain string equality. The real table's
  key comparer is not part of this model.
- Dictionary enumeration order is modelled as the `keys` sequence. A new
  key goes last, and a removal keeps the others in order. A real dictionary
  may put a new key into a slot freed by an earlier removal. Only the
  position of records in unfiltered and by-type output depends on this.
- TypeAccelerators.Registry.Add overwrites an existing binding. The
  cmdlets only call it for an absent name, so this choice never shows.
- Concurrency is not modelled. That includes the check-then-insert window
  between lines 130 and 132 and changes to the table while Get enumerates
  it.
- Parameter binding is not modelled. That covers `[Parameter]`, `[Alias]`,
  `Mandatory` validation, pipeline binding by property name and the
  mechanics of choosing a parameter set. What the binder guarantees is the
  precondition `BindingConsistent`: a parameter outside the chosen set is
  never bound. Under that guarantee the `foreach` at line 82 or 90 never
  meets a null array.
- TypeAcceleratorCmdlets.GetTypeAccelerator, TypeAcceleratorCmdlets.AddTypeAccelerator
  and TypeAcceleratorCmdlets.RemoveTypeAccelerator model no null values.
  That covers null array elements, a null descriptor `Name` (which the real
  dictionary rejects) and null types.
- The `ShouldProcess` prompt and `ConfirmImpact` are not modelled. Each
  descriptor's answer is an input boolean. A "No to All" answer is a run of
  `false`.
- `ToString` (line 41) is not modelled. It only feeds the confirmation
  message, and its text depends on the host's type formatting.
- `WriteObject` pipeline plumbing is not modelled. The written records are
  returned as a sequence.
