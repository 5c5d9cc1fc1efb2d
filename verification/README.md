# Verified model of datorium_client

`datorium_client` is a smart client for a sharded JSON document database. It keeps JSON documents
as ordered objects with exact number texts, normalises them against compiled schemas, turns edits
into JSON patches (RFC 6902) addressed by JSON pointers (RFC 6901), and routes every command to the
server that owns the document, following establishment documents that may be stale. This project
models those parts in Dafny and proves what they promise.

| layer | modules | source |
|---|---|---|
| strings and numbers | `Text`, `Number`, `Ulid`, `Refs` | `_json/number.py`, `ids.py`, `refs.py` |
| values and patches | `Pointer`, `Value`, `Patch`, `Diff`, `PatchLaws`, `OpLaws`, `RoundTrip`, `Replays`, `PatchCodec` | `_json/value.py`, `_patch/` |
| schemas | `Compile`, `CompileLaws`, `Schema`, `SchemaLaws` | `_schema/` |
| typed patches | `Collection` | `collection.py` |
| code that runs in place | `Nodes`, `NodePatch`, `DiffRun`, `SchemaRun`, `CollectionRun` | `_json/value.py`, `_patch/patch.py`, `_schema/apply.py`, `collection.py` |
| routing | `Shard`, `Routing`, `Runs`, `Reads`, `Client`, `VersionRetry` | `shard.py`, `routing.py`, `establishment.py`, `client.py` |

Code that only computes is a function; code that works step by step is a method proved equal to a
function (`Compile`, `Number`, `Ulid`, `Shard`) or a class with a ghost abstraction (`Nodes`,
`Client`, `VersionRetry`). Mutable nodes carry the value they stand for and their footprint;
`NodePatch`, `DiffRun`, `SchemaRun` and `CollectionRun` tie every heap method to the value-level
function of `Patch`, `Diff`, `Schema` and `Collection`.
Servers, the network and random draws are arbitrary reply streams given to the client, so a theorem
about every run is a theorem about every environment. `Runs` and `Reads` describe complete runs as
predicates, the methods of `Client.SmartClient` are proved to produce only such runs, and the laws
are proved of the predicates. Each function that a method is proved equal to has laws of its own
that say what its result means, read back through other operations or off the input.

## Where the code and its documentation part

- `replace` on an array element. Section 4.3 of RFC 6902 makes `replace` a removal followed by an
  addition at the same place. `src/datorium_client/_patch/patch.py:181` sends it through `_add`,
  which inserts when the parent is an array (`src/datorium_client/_patch/patch.py:279`). The model
  keeps both meanings: `Rfc` is what an emitted patch means, `AsCoded` is what the local applier
  does. `RoundTrip.RfcRoundTrip` holds of all values; `Collection.CodedExact` gives the exact
  condition for the coded applier; `RoundTrip.ReplacedElementIsInserted` is the smallest pair it
  gets wrong ([1] to [2] gives [2,1]); `Replays.OwnArray` says what it makes of any two arrays;
  `Collection.LegitimateEditRefused` is an edit that the local check of `create_patch_from_changes`
  refuses although it is valid on both sides.
- Convergence of writes. A write reaches the owning member within two POSTs from a stale document,
  unless that document yields no URL at all: the loop of
  `src/datorium_client/client.py:343-351` then stops before any POST and before any refresh.
  `Runs.WriteConverges` states this as an equivalence, `Runs.UnnamedServerBlocksWrite` gives the
  document.
- Parsing an unescaped pointer. `parse_pointer` accepts a `~` that is followed by neither 0 nor 1,
  which section 3 of RFC 6901 does not; `Pointer.FormatParse` shows these are exactly the pointers
  that formatting does not give back, `Pointer.BareTildeAccepted` gives the smallest.

## Model

| member | source | states |
|---|---|---|
| `RoundTrip.RfcRoundTrip` | src/datorium_client/_patch/patch.py:309-364 | applying the diff of any two well-formed values, with `replace` as RFC 6902 defines it, never fails and gives a value equal to the new one |
| `RoundTrip.CodedRoundTrip` | src/datorium_client/_patch/patch.py:155-181 | with the applier as coded: success and equality on every safe pair; on every other pair it fails or leaves an array of a wrong length |
| `Collection.CodedExact` | src/datorium_client/_patch/patch.py:172-283 | the coded applier reaches the new value if and only if no shared array index reached by the diff holds an unequal pair that is scalar or of different kinds |
| `Replays.ReplayRun` | src/datorium_client/_patch/patch.py:162-163 | when a diff is applied as coded to any document at all: it succeeds exactly when its replay does, child by child, and gives that value |
| `Replays.ReplayPatch` | src/datorium_client/_patch/patch.py:155-169 | the same of the emitted patch with its pointer texts |
| `Replays.OwnObject` | src/datorium_client/_patch/patch.py:341-348 | on two objects the coded run fails if and only if a shared field's own run does |
| `Replays.OwnArray` | src/datorium_client/_patch/patch.py:276-283 | on two arrays the coded run fails if and only if the diff of a shared index does not fit the old element that has moved there, one place for each whole element put in before it; otherwise the result is the shared elements so replayed, the new tail, and as many of the last old elements as whole elements were put in |
| `RoundTrip.ReplacedElementIsInserted` | src/datorium_client/_patch/patch.py:178-181 | the counterexample: the diff of [1] and [2] is one `replace` at /0 and the coded applier makes [2,1] of it |
| `RoundTrip.DiffVerdict` | src/datorium_client/_patch/patch.py:323-364 | the same dichotomy on steps, for both meanings of `replace`, by induction on the values |
| `RoundTrip.ObjectRun` | src/datorium_client/_patch/patch.py:341-348 | on two objects a run fails only if a child's run does, and leaves exactly the new keys, each with its own child's outcome |
| `RoundTrip.ArrayRun` | src/datorium_client/_patch/patch.py:349-363 | on two arrays: shared indexes hold their own outcomes, trailing removals from the high end and appends in order give the new length and the new tail |
| `RoundTrip.ArrayTooLong` | src/datorium_client/_patch/patch.py:276-279 | one whole-element `replace` anywhere makes the coded run fail or end with too long an array: lengths add up over the operations |
| `RoundTrip.ClashUnequal` | src/datorium_client/_patch/patch.py:142-150 | arrays of different lengths at one place are never repaired by equality elsewhere |
| `Diff.EmptyIffEqual` | src/datorium_client/_patch/patch.py:323-364 | the diff is empty if and only if the values are equal |
| `Diff.DroppedIff` | src/datorium_client/_patch/patch.py:342-347 | the removed keys are exactly those the new object lacks |
| `Diff.DroppedSorted` | src/datorium_client/_patch/patch.py:346-347 | keys are removed in code point order |
| `DiffRun.DiffInto` | src/datorium_client/_patch/patch.py:323-364 | on nodes: the recursion on one shared list appends exactly the operations of the slot under its path, after what was there, Void on either side included; their values are clones and neither side changes |
| `DiffRun.RunDiff` | src/datorium_client/_patch/patch.py:309-320 | the list built in place stands for the patch that the round trip is proved of, and holds only new nodes |
| `Patch.EmittedMeaning` | src/datorium_client/_patch/patch.py:172-207 | operations with pointer texts act as the steps they were written from: nothing is lost in formatting and parsing paths |
| `Patch.LocalField` | src/datorium_client/_patch/patch.py:285-297 | an operation below an object key does to the object exactly what it does to that field, failures included |
| `Patch.LocalFieldAll` | src/datorium_client/_patch/patch.py:162-163 | the same for a whole list of operations that never delete the field's value |
| `Patch.LocalItem` | src/datorium_client/_patch/patch.py:298-305 | an operation that works inside an array element changes that element only |
| `Patch.LocalItemAll` | src/datorium_client/_patch/patch.py:162-163 | the same for a whole list of operations |
| `PatchLaws.MutateWF` | src/datorium_client/_patch/patch.py:244-306 | editing keeps keys distinct in every object of the tree |
| `PatchLaws.StepsWF` | src/datorium_client/_patch/patch.py:155-169 | so does every successful run of operations |
| `PatchLaws.GetAfterAdd` | src/datorium_client/_patch/patch.py:210-235 | what was added is what is read back; only the append marker cannot be read |
| `PatchLaws.EditElsewhere` | src/datorium_client/_patch/patch.py:285-297 | an edit leaves every path that parts from it at an object key as it was, failures included |
| `PatchLaws.RemoveUndoesAdd` | src/datorium_client/_patch/patch.py:238-283 | removing at the path just added to succeeds, and restores the document with its field order if and only if the path was absent or is an array position |
| `PatchLaws.OverwriteIsRemoveThenAdd` | src/datorium_client/_patch/patch.py:178-181 | the RFC meaning of `replace` on a present target equals removal followed by addition at the same place (section 4.3 of RFC 6902) |
| `OpLaws.TestMeaning` | src/datorium_client/_patch/patch.py:182-186 | `test` succeeds if and only if the value at the path equals the given one, Void included, and returns the document as it is |
| `OpLaws.CopySucceedsIff` | src/datorium_client/_patch/patch.py:201-206 | `copy` succeeds if and only if there is a source and a place for it |
| `OpLaws.CopyMeaning` | src/datorium_client/_patch/patch.py:201-206 | after a `copy` the path reads what the source read, and whatever parts from the path at a key is unchanged, the source included; onto the root it is the whole document |
| `OpLaws.MoveIntoItselfFails` | src/datorium_client/_patch/patch.py:187-194 | `move` onto a proper descendant of its source fails, whatever the document |
| `OpLaws.MoveIsRemoveThenAdd` | src/datorium_client/_patch/patch.py:195-200 | otherwise `move` is a removal at the source and an addition at the path of what was there, and succeeds exactly when those do (section 4.4 of RFC 6902) |
| `OpLaws.MoveMeaning` | src/datorium_client/_patch/patch.py:195-200 | after the `move` of an object field to a path that parts from it at a key: the source is Void, the path reads the old value, whatever parts from both is unchanged |
| `OpLaws.EditsSucceedIff` | src/datorium_client/_patch/patch.py:174-181 | `add` succeeds if and only if there is a place, `remove` and `replace` if and only if there is a value |
| `OpLaws.AddRemoveMeaning` | src/datorium_client/_patch/patch.py:174-177 | after an `add` the path reads the value, after the `remove` of a field it reads Void, and whatever parts from the path at a key is unchanged |
| `OpLaws.ArrayInsertion` | src/datorium_client/_patch/patch.py:266-282 | an addition to an array puts the value before the element of that index, last for `-` and for the length, and moves nothing else |
| `OpLaws.GetAfterRemove` | src/datorium_client/_patch/patch.py:257-274 | a removed field is gone; the element behind a removed one takes its index |
| `OpLaws.RootEdits` | src/datorium_client/_patch/patch.py:164-181 | at the root: the whole document, or Void, which no patch may end with |
| `OpLaws.MissingValueFails` | src/datorium_client/_patch/patch.py:228-232 | `add`, and `replace` below the root, fail without a value |
| `PatchCodec.ParseToObject` | src/datorium_client/_patch/patch.py:42-54 | one operation written as an object parses back unchanged |
| `PatchCodec.WrittenForm` | src/datorium_client/_patch/patch.py:42-54 | the name, path, value and source that each operation is written with |
| `PatchCodec.ParsedForm` | src/datorium_client/_patch/patch.py:94-123 | an object is an operation if and only if its fields are distinct and known, and its name, path, value and source are there and of the right types |
| `PatchCodec.ParseToJson` | src/datorium_client/_patch/patch.py:68-91 | every patch that can be written parses back unchanged |
| `PatchCodec.ParsedWritable` | src/datorium_client/_patch/patch.py:94-123 | every parsed patch can be written again |
| `Pointer.EscapeRoundTrip` | src/datorium_client/_patch/pointer.py:6-11 | escaping loses nothing and yields a reference token of RFC 6901 |
| `Pointer.UnescapeRoundTrip` | src/datorium_client/_patch/pointer.py:6-11 | every reference token is the escape of what it unescapes to |
| `Pointer.ParseFormat` | src/datorium_client/_patch/pointer.py:14-25 | every segment list survives formatting and parsing |
| `Pointer.FormatParse` | src/datorium_client/_patch/pointer.py:14-25 | an accepted pointer survives parsing and formatting if and only if each `~` in it is followed by 0 or 1 |
| `Pointer.BareTildeAccepted` | src/datorium_client/_patch/pointer.py:14-25 | the smallest accepted pointer outside the grammar: "/~" is written back as "/~0" |
| `Pointer.FormatPrefix` | src/datorium_client/_patch/pointer.py:22-25 | a formatted pointer followed by `/` is a text prefix of another exactly when its segments are a proper prefix |
| `Pointer.MoveGuardIsProperPrefix` | src/datorium_client/_patch/patch.py:187-194 | the string guard on `move` refuses exactly the moves into a proper descendant of the source (section 4.4 of RFC 6902) |
| `Pointer.IndexRoundTrip` | src/datorium_client/_patch/pointer.py:28-36 | an index written into a path is read back as the same index |
| `Pointer.IndexIsDecimal` | src/datorium_client/_patch/pointer.py:28-36 | an index is accepted exactly in its decimal form: no sign, no leading zero |
| `Pointer.PointerAcceptedIff` | src/datorium_client/_patch/pointer.py:14-19 | a pointer is the empty text, which is the root, or begins with a slash; anything else is refused |
| `Value.EqualReflexive` | src/datorium_client/_patch/patch.py:126-152 | equality is reflexive |
| `Value.EqualSymmetric` | src/datorium_client/_patch/patch.py:126-152 | equality is symmetric |
| `Value.EqualTransitive` | src/datorium_client/_patch/patch.py:126-152 | equality is transitive |
| `Value.ObjectsEqualIff` | src/datorium_client/_patch/patch.py:146-151 | objects with distinct keys are equal exactly when every key reads equal on both sides: order is irrelevant |
| `Value.EqualContents` | src/datorium_client/_patch/patch.py:132-145 | values of different kinds are never equal; scalars are equal when their contents are, numbers by what they denote; arrays element by element |
| `Value.LookupSet` | src/datorium_client/_json/value.py:107-124 | after `set`, that key reads the new value and no other key changes |
| `Value.LookupRemoveOther` | src/datorium_client/_json/value.py:126-131 | `remove` changes no other key |
| `Value.LookupRemoved` | src/datorium_client/_json/value.py:126-131 | after `remove`, the key is absent |
| `Value.DistinctSet` | src/datorium_client/_json/value.py:116-124 | `set` keeps keys distinct |
| `Value.DistinctRemove` | src/datorium_client/_json/value.py:126-131 | `remove` keeps keys distinct |
| `Value.RemoveAppended` | src/datorium_client/_json/value.py:116-131 | setting an absent key appends, and removing it restores the field list |
| `Text.SortUnique` | src/datorium_client/_patch/patch.py:346-346 | the order in which keys are removed: the only sorted arrangement of them |
| `Nodes.JsonObject.Set` | src/datorium_client/_json/value.py:116-124 | in place: overwrite, append, or remove for Void; the value and the footprint of the node after it |
| `Nodes.JsonObject.Remove` | src/datorium_client/_json/value.py:126-131 | in place: the first field of that name goes, and the answer says whether there was one |
| `Nodes.JsonObject.Get` | src/datorium_client/_json/value.py:107-111 | the node of the first field of that name, Void exactly when there is none |
| `Nodes.JsonObject.Clone` | src/datorium_client/_json/value.py:133-134 | the same value in nodes that are all new |
| `Nodes.JsonArray.Clone` | src/datorium_client/_json/value.py:84-85 | the same value in nodes that are all new |
| `Nodes.CloneRef` | src/datorium_client/_json/value.py:140-144 | the same for any value |
| `NodePatch.GetRef` | src/datorium_client/_patch/patch.py:210-225 | the node found stands for the value that the value-level read gives, Void and failures included |
| `NodePatch.MutateRef` | src/datorium_client/_patch/patch.py:244-306 | a tree of new nodes for the edited value; no node that existed before changes |
| `NodePatch.AddRef` | src/datorium_client/_patch/patch.py:228-235 | the same for additions, the root and Void included |
| `NodePatch.RemoveRef` | src/datorium_client/_patch/patch.py:238-241 | the same for removals |
| `NodePatch.MoveRef` | src/datorium_client/_patch/patch.py:187-200 | `move`: guard, removal, addition of the value that was there, in new nodes |
| `NodePatch.CopyRef` | src/datorium_client/_patch/patch.py:201-206 | `copy`: the value is added in new nodes, the source keeps its own |
| `NodePatch.TestRef` | src/datorium_client/_patch/patch.py:182-186 | `test` returns the document itself or fails |
| `NodePatch.ApplyOpRef` | src/datorium_client/_patch/patch.py:172-207 | every operation computes the value-level result and shares no node with the document or the patch, except that `test` returns the document |
| `NodePatch.ApplyPatchRef` | src/datorium_client/_patch/patch.py:161-166 | the loop over operations changes no node of the document or the patch, whether it succeeds or fails midway; a result shares no mutable node with either and is the value-level result |
| `CollectionRun.ApplyCheckedRef` | src/datorium_client/_patch/patch.py:155-169 | the same of all of `apply_patch`, the schema step included |
| `CollectionRun.CreatePatchFromChangesRef` | src/datorium_client/collection.py:224-240 | on nodes: neither the original nor the edited content changes, and the patch holds only new nodes, so later edits do not reach it |
| `CollectionRun.CreatePatchRef` | src/datorium_client/collection.py:242-253 | on nodes: the given patch itself, or the error of its local check; nothing changes |
| `SchemaLaws.Congruence` | src/datorium_client/_schema/apply.py:31-129 | values equal up to key order and number spelling are both accepted or both rejected, and the results are equal again |
| `SchemaLaws.Idempotent` | src/datorium_client/_schema/apply.py:23-101 | the result is well-formed, conforms to the schema and is its own normal form |
| `SchemaLaws.ConformsIffFixed` | src/datorium_client/_schema/apply.py:31-129 | conforming values, defined without normalisation, are exactly its fixed points |
| `SchemaLaws.ResultConforms` | src/datorium_client/_schema/apply.py:72-101 | every result conforms: right kinds and constraints, children in schema order, unknown keys after them |
| `SchemaLaws.ObjectSucceeds` | src/datorium_client/_schema/apply.py:75-83 | an object is accepted if and only if every child slot is: present and accepted, defaulted, or optional |
| `SchemaLaws.ChildOutcome` | src/datorium_client/_schema/apply.py:75-83 | a present value must be accepted and is normalised; an absent one takes its default, normalised; without a default it is refused when required and stays absent when not |
| `SchemaLaws.ArrayOutcome` | src/datorium_client/_schema/apply.py:92-101 | an array is accepted if and only if each element is, and holds their normal forms in place; without an element schema it is taken as it is |
| `SchemaLaws.NormalizedWF` | src/datorium_client/_schema/apply.py:72-101 | a result has distinct keys in every object |
| `SchemaLaws.ClashSurvives` | src/datorium_client/_schema/apply.py:92-101 | normalisation never hides an array of a wrong length |
| `Schema.ObjectForm` | src/datorium_client/_schema/apply.py:72-89 | the two loops that set fields of one object give the known part in schema order followed by the unknown fields in source order |
| `Schema.NormalizedLookup` | src/datorium_client/_schema/apply.py:72-89 | each child key holds its own normalised value or default, every other key what the source held; no source field is lost |
| `Schema.NormalizedDistinct` | src/datorium_client/_schema/apply.py:72-89 | the two parts share no key |
| `SchemaRun.NormalizeRef` | src/datorium_client/_schema/apply.py:31-69 | on nodes: the normal form, with the first error in evaluation order; no node of the input changes and the result is all new |
| `SchemaRun.SetChildren` | src/datorium_client/_schema/apply.py:73-83 | the first object loop as it runs, setting fields of `out` in place: values and defaults in schema order, or the first error |
| `SchemaRun.KeepUnknowns` | src/datorium_client/_schema/apply.py:84-89 | the second object loop as it runs: clones of the unknown fields, in source order |
| `SchemaRun.NormalizeArray` | src/datorium_client/_schema/apply.py:92-101 | the array loop as it runs, filling `items` |
| `CompileLaws.CompiledSound` | src/datorium_client/_schema/compile.py:105-197 | every entry that compiles has distinct child names at every level, well-formed defaults of its kind (null only when allowed), children only on objects and items only on arrays |
| `CompileLaws.CompilesIff` | src/datorium_client/_schema/compile.py:105-263 | a document compiles if and only if its attributes are known and of the right types for the kind it spells, and its parts compile, children under different names |
| `CompileLaws.CompiledKindSpelled` | src/datorium_client/_schema/compile.py:122-128 | what is accepted, other than null, is of the kind that the document spells, and each kind accepts its own |
| `CompileLaws.CompiledHeader` | src/datorium_client/_schema/compile.py:130-148 | name, flags and default of an entry are the document's own; only an anonymous entry may lack a name |
| `CompileLaws.CompiledParts` | src/datorium_client/_schema/compile.py:150-172 | an object entry has one child for each listed document, in order, each its compilation; an array entry's items are the compilation of theirs |
| `CompileLaws.CompiledNumber` | src/datorium_client/_schema/compile.py:229-245 | a compiled number schema accepts exactly the number texts within the min and max its document spells, and only whole numbers when it says integer |
| `CompileLaws.CompiledString` | src/datorium_client/_schema/compile.py:199-226 | a compiled string schema accepts exactly the strings of the lengths, enumeration and format its document names; an empty enumeration excludes nothing |
| `CompileLaws.CompiledNull` | src/datorium_client/_schema/apply.py:36-39 | a compiled schema accepts null exactly when it is the null schema or its document says nullable |
| `CompileLaws.TruncateTowardsZero` | src/datorium_client/_schema/compile.py:208-209 | a length limit is cut off towards zero |
| `CompileLaws.WholeIsInteger` | src/datorium_client/_schema/apply.py:124-125 | being whole is being the value of an integer |
| `Compile.CompileDocument` | src/datorium_client/_schema/compile.py:105-197 | the entry assigned field by field is the compiled entry, with the same first error |
| `Compile.CompileChildList` | src/datorium_client/_schema/compile.py:155-164 | `child_by_name` holds exactly the children, each under its own name |
| `Collection.LocalCheck` | src/datorium_client/collection.py:224-240 | the schema-checked patched document equals the normalised edit on every safe pair; otherwise the check fails or its document has an array of a wrong length |
| `Collection.LocalCheckExact` | src/datorium_client/collection.py:224-240 | it succeeds with the normalised edit if and only if the pair is safe |
| `Collection.PatchFromChanges` | src/datorium_client/collection.py:224-240 | "no changes" if and only if the normal forms are equal; a patch if and only if, besides, the replay of the diff on the first normal form succeeds and the schema takes its result; a safe change always yields a patch; a patch is always the diff |
| `Collection.UnacceptedContent` | src/datorium_client/collection.py:228-229 | content that the schema refuses yields no patch; the error is that of the original, else of the edit |
| `Collection.LegitimateEditRefused` | src/datorium_client/collection.py:234-238 | an edit, normal on both sides, that the local check refuses |
| `Collection.SentPatchLands` | src/datorium_client/collection.py:224-240 | whenever a patch is made, its JSON parses back to it, and a server that follows RFC 6902 and checks the same schema accepts it and holds the normalised edit |
| `Collection.ExplicitPatchAgrees` | src/datorium_client/collection.py:242-253 | the operations of an edit, given explicitly on any original, are accepted if and only if their replay on that original succeeds and the schema takes the result; always when the original is in normal form |
| `Collection.ExplicitPatchIff` | src/datorium_client/collection.py:242-253 | any explicit patch is taken unchanged if and only if it applies to the original, as coded, and the schema takes what it makes |
| `Collection.DefaultedFieldRefused` | src/datorium_client/collection.py:242-253 | an original that lacks a defaulted field: the edit of that field yields a patch that `create_patch` refuses on the same original |
| `Number.ScanSound` | src/datorium_client/_json/number.py:8-13 | the scanner accepts nothing outside the grammar of section 6 of RFC 8259 |
| `Number.ScanComplete` | src/datorium_client/_json/number.py:8-13 | it accepts every text of the grammar, with one reading |
| `Number.ParseJsonNumberRat` | src/datorium_client/_json/number.py:37-62 | the scan over marker, sign and point computes sign × digits × 10^(exponent − fraction digits), and fails exactly outside the grammar |
| `Number.IntegerText` | src/datorium_client/_json/number.py:57-62 | the decimal form of a natural number denotes it |
| `Number.MinusNegates` | src/datorium_client/_json/number.py:47-58 | a leading minus makes a number its negative, and neither makes nor breaks one |
| `Number.PointDivides` | src/datorium_client/_json/number.py:51-62 | digits behind the point divide by a power of ten |
| `Number.ExponentScales` | src/datorium_client/_json/number.py:42-62 | an exponent multiplies by a power of ten, a negative one divides by it |
| `Number.NumberShape` | src/datorium_client/_json/number.py:8-13 | every number text has a digit first behind the sign, no second one behind a leading zero, and a digit last |
| `Number.EqualNumbersIff` | src/datorium_client/_json/number.py:65-69 | two number texts are equal if and only if their integer mantissas agree after scaling by a power of ten |
| `Number.NegativeEqualsIff` | src/datorium_client/_json/number.py:65-69 | a number equals its negative if and only if it is zero |
| `Number.TrailingFractionZero` | src/datorium_client/_json/number.py:65-69 | zeros appended to the fraction do not change a number |
| `Number.PointShift` | src/datorium_client/_json/number.py:65-69 | moving the point and adjusting the exponent does not change a number |
| `Number.PrepareNumber` | src/datorium_client/_json/number.py:16-34 | every integer with a trailing point becomes a valid text of the same integer; anything else is kept in value, and refused exactly when it is no number |
| `Number.UpperExponent` | src/datorium_client/_json/number.py:31-34 | upper-casing the exponent marker neither makes nor breaks a number |
| `Shard.ParsedRange` | src/datorium_client/shard.py:46-70 | a parsed range is in bounds and not empty |
| `Shard.SlotRoundTrip` | src/datorium_client/shard.py:63-70 | the two hexadecimal digits of a slot are read as that slot, in either case; below 16 the last one is enough |
| `Shard.RangeRoundTrip` | src/datorium_client/shard.py:46-60 | a range text is read as written, single or first to last, and refused when not in order |
| `Shard.ValidateFullCoverage` | src/datorium_client/shard.py:73-82 | accepted if and only if each of the 256 slots lies in exactly one range |
| `Shard.ParseShardMap` | src/datorium_client/establishment.py:107-133 | the default map is accepted if and only if every range parses and together they cover each slot once |
| `Shard.ParsedMap` | src/datorium_client/establishment.py:112-132 | each assignment is the range of its key with the members that the document names for it, each list under its own name |
| `Shard.LookupTotal` | src/datorium_client/establishment.py:58-62 | on an accepted map every slot has an assignment whose range contains it |
| `Shard.FoundIsOwner` | src/datorium_client/establishment.py:58-62 | the assignment found for a slot is any one of an accepted map that contains it |
| `Shard.LookupOrder` | src/datorium_client/establishment.py:58-62 | the assignment of a slot does not depend on the order of the map |
| `Shard.FindShardingPrefix` | src/datorium_client/shard.py:26-33 | the loop finds the id up to its first period at index 6 or later, and all of it when there is none |
| `Shard.FamilySharesSlot` | src/datorium_client/shard.py:9-33 | `p` and `p.x` share their slot and assignment once `p` has six characters, whatever the checksum |
| `Shard.SlotIsLowByte` | src/datorium_client/shard.py:9-11 | the slot is the low byte of the checksum of the family's name |
| `Routing.ReadCandidates` | src/datorium_client/routing.py:31-47 | the candidates are an arrangement of the shard's read members, or the establishment server |
| `Routing.ReadCandidatesNonEmpty` | src/datorium_client/routing.py:31-47 | there is always a candidate, and as many as there are members to ask |
| `Routing.Shuffle` | src/datorium_client/routing.py:45-46 | the shuffle in place loses and invents nothing |
| `Routing.SearchRoute` | src/datorium_client/routing.py:50-70 | a search goes to a read member, else the source-of-truth member, else the establishment server |
| `Routing.WriteRouteIsOwner` | src/datorium_client/routing.py:11-19 | by an accepted shard map a write goes to the source-of-truth member of the shard that the document's slot lies in, else to the establishment server, at its base URL |
| `Routing.ReadsStayInShard` | src/datorium_client/routing.py:39-47 | reads go to the read members of that shard, all of them and no others, or to the establishment server when it has none |
| `Routing.SearchStaysInShard` | src/datorium_client/routing.py:61-70 | searches go to a read member of their shard, else its source-of-truth member, else the establishment server |
| `Routing.BaseUrlMeaning` | src/datorium_client/establishment.py:64-68 | a base URL is the configured one without its trailing slashes; a server that is not configured has none |
| `Runs.RewriteMeaning` | src/datorium_client/client.py:371-377 | a URL is the one configured for the server's name, else for its base URL, else its base URL, without trailing slashes |
| `Runs.ChosenIsFirst` | src/datorium_client/client.py:344-349 | the chosen URL is that of the first candidate whose URL is usable and untried |
| `Client.SmartClient.constructor` | src/datorium_client/client.py:101-113 | the retry setting counts only when positive, and is three otherwise |
| `Client.SmartClient.PostCommand` | src/datorium_client/client.py:400-422 | one command is repeated on transport failures only, at most the configured number of times, always with the same line to the same URL |
| `Client.SmartClient.EnsureEstablished` | src/datorium_client/client.py:365-369 | a cached document is used without a request; otherwise one is fetched and cached |
| `Client.SmartClient.ExecuteRouted` | src/datorium_client/client.py:327-363 | every execution is a complete run in the sense of `Runs.Routed`, these are all the messages it puts on the wire, and the cache is left with the latest fetched document |
| `Client.SmartClient.Read` | src/datorium_client/client.py:182-228 | every read is a complete run in the sense of `Reads.WholeRead`, whose executions are all that it puts on the wire, each from the document the one before left; its last statement is never reached |
| `Client.SmartClient.ExecuteCreate` | src/datorium_client/client.py:292-325 | the create command is sent by one execution only; exactly a doubtful outcome is followed by one complete read, which settles the result; nothing else is sent |
| `Reads.CreateMeaning` | src/datorium_client/client.py:292-325 | a create ends as its own answer; by `documentExists`, or a lost reply when creates are verified, through the read that follows; with its own error otherwise |
| `Runs.UrlsDistinct` | src/datorium_client/client.py:340-352 | no URL is posted to by two hops of one run |
| `Runs.RoutedSafety` | src/datorium_client/client.py:340-363 | at most one more hop than retries; distinct URLs; each later hop is chosen from the document fetched right after the refusal before it; only `wrongMachine` leads on; the answer or error is the last server's own, or the establishment server's error on the refresh |
| `Runs.HopsAreCandidates` | src/datorium_client/client.py:345-351 | every hop goes to the rewritten URL of a candidate of that document |
| `Runs.WrongMachineMeaning` | src/datorium_client/client.py:350-363 | ending as `wrongMachine` means the budget is spent, or every candidate of the latest document is unusable or has refused, or the establishment server answered a refresh with that code |
| `Runs.SameLine` | src/datorium_client/client.py:353-353 | every POST of a run, transport retries included, carries the same command line to a URL of one of its hops |
| `Runs.WriteConverges` | src/datorium_client/client.py:340-363 | in a settled topology, where every refresh has an accepted shard map whose owner of the document is at one URL, a write is answered by that server within two hops, whatever document was cached, if and only if that document names a usable URL |
| `Runs.FirstUrlIsOwners` | src/datorium_client/routing.py:11-19 | by an accepted shard map, the URL a write first goes to is the owner's |
| `Runs.NextWriteDirect` | src/datorium_client/client.py:340-363 | the document that a converged write leaves in the cache sends the next write to the owning member in one hop |
| `Runs.UnnamedServerBlocksWrite` | src/datorium_client/client.py:343-351 | the condition is real: a document that names no server ends a write at once, without a message |
| `Reads.StaleOutcome` | src/datorium_client/client.py:195-222 | SURFACE ends with the first execution; FAILOVER reports a stale error if and only if every initial candidate was the primary of an execution that ended stale; PREFER_SOT adds one source-of-truth execution exactly then, and reports a stale error only from there |
| `Reads.StaleCodes` | src/datorium_client/client.py:210-211 | staleness is these two codes and nothing else |
| `Reads.PrimaryFirst` | src/datorium_client/client.py:199-203 | a primary with a usable URL is the first server asked |
| `Reads.ReadPostBound` | src/datorium_client/client.py:195-228 | a read over n candidates puts at most n(wm_retries + 1)(transport_retries + 1) POSTs on the wire, (n + 1) times under PREFER_SOT, all of the read command |
| `Reads.RunPostBound` | src/datorium_client/client.py:343-363 | one execution puts at most (wm_retries + 1)(transport_retries + 1) POSTs on the wire |
| `VersionRetry.Document.PatchWithVersionRetry` | src/datorium_client/client.py:250-267 | with other writers anywhere and reads of any earlier state: the whole exchange is a read and a patch built from it, and a second such pair exactly after a mismatch; success means exactly one of our patches was applied, to exactly the state it was built from; a mismatch, a rejection or a failed read means none was |
| `VersionRetry.AtMostTwoPatches` | src/datorium_client/client.py:250-267 | such an exchange holds at most two patches, two only after a mismatch, none only when the first read fails |
| `VersionRetry.Document.Patch` | docs/patches.md:3-3 | the server: a patch is applied only to the version it names, and a lost reply leaves open whether it was |
| `VersionRetry.SameState` | docs/patches.md:3-3 | since versions are never reused, the version that was accepted names the state that was read |
| `VersionRetry.CountOurs` | src/datorium_client/client.py:250-267 | counts our commits among the others' |
| `Ulid.NewUlid` | src/datorium_client/ids.py:11-23 | the loop gives the 26 base-32 digits of the 128-bit value, and fails exactly for a time outside 48 bits |
| `Ulid.UlidRoundTrip` | src/datorium_client/ids.py:11-23 | decoding returns the value, hence the time and the entropy |
| `Ulid.UlidInjective` | src/datorium_client/ids.py:13-23 | two ULIDs are the same text only for the same millisecond and the same entropy |
| `Ulid.EncodeInjective` | src/datorium_client/ids.py:18-23 | different values have different digits |
| `Ulid.EncodeOrder` | src/datorium_client/ids.py:18-23 | the order of the strings is the order of the values |
| `Ulid.LaterSortsLater` | src/datorium_client/ids.py:11-23 | a later millisecond sorts strictly later, whatever the entropy |
| `Ulid.DigitOrder` | src/datorium_client/ids.py:8-8 | the alphabet is in code point order, without repeats |
| `Refs.ParsedFormat` | src/datorium_client/refs.py:22-50 | an accepted text is the formatting of its parts up to surrounding whitespace, with neither part empty |
| `Refs.MarkerDecides` | src/datorium_client/refs.py:24-34 | a text is no reference exactly when, stripped, it begins with neither marker; a reference is of the kind of its marker |
| `Refs.AcceptedIff` | src/datorium_client/refs.py:35-42 | of what begins with a marker, exactly the formattings of a separable collection and a non-empty id are references; the rest is invalid |
| `Refs.FormatRoundTrip` | src/datorium_client/refs.py:22-50 | parsing a formatted reference returns its parts if and only if the collection is not empty, can be told from the separator, and the id is not empty and has no trailing whitespace |
| `Refs.FindSeparator` | src/datorium_client/refs.py:35-39 | the first separator is the intended one exactly for collections without `__` that do not end in `_` |

## Left out

- HTTP, headers, bearer tokens, sleeping and time-outs of `client.py`: a request is an arbitrary reply or a transport failure.
- `async_client.py`: the same state machine with awaits.
- The JSON text codec (`_json/codec.py`) and `from_python`: they delegate to the standard library; the model starts from values.
- `schema_compat.py`, `ordered.py` and the Pydantic and dataclass conversions: reflection. `Collection` starts from the two JSON values.
- `_merge_extra_fields`, `patch_doc` and the envelope, command, search path and front page helpers: they copy fields between envelopes and take part in no decision.
- CRC32 is any function from texts to natural numbers, and string format validators are any predicates.
- Error texts and schema paths: only the kind of an error is kept.
- Digits and whitespace outside ASCII in `parse_array_index`, `strip` and the number grammar, and Python's limit on the length of integer texts.
- Patch operations with an unknown name or without `from`: only reachable by building `PatchOp` by hand, not by parsing.
- Void stored inside a value, which no constructor produces, and the branches of `_mutate` and `_get` that only it reaches.
- Objects with repeated keys, where a law asks for well-formed values: constructors and mutators keep keys distinct (`Value.DistinctSet`, `Value.DistinctRemove`).
- Scalar nodes are values in `Nodes`: they are never updated, so sharing them is not observable.
- The fields of `SchemaEntry` are assigned on a record value in `Compile`, which has no aliases.
- `parse_establishment` outside the default shard map, and `validate_catalog`: a fetch reply says whether the document passed.
- Negative `transport_retries`, for which `_request` stops at an assertion.
- The lock of `EstablishmentCache` and use of one client from several threads.
- `Collection.SentPatchLands`: the server is taken to hold the normalised original; one that holds an original which is not in normal form is outside the statement, since the diff is taken from the normal form (`Collection.DefaultedFieldRefused` shows why).
- `VersionRetry.Document.PatchWithVersionRetry`: transport retries are off; the server is taken to check versions and never reuse one, and `build` to copy the version it read.
- `Runs.WriteConverges`: machines that do not own the document are taken to answer `wrongMachine`, and no request to fail.
