/** Typed patches on nodes: `apply_patch` with its schema step, and the two ways to a patch.
    Nothing that the caller holds is changed, and what comes back is new. */
module CollectionRun {
  import opened Wrappers
  import opened Patch
  import opened Diff
  import opened Schema
  import opened Nodes
  import opened NodePatch
  import opened SchemaRun
  import opened DiffRun
  import opened Collection

  /** `apply_patch`, with the schema step when there is a schema. No `modifies`: whether it
      succeeds or fails midway, no node of the document or of the patch changes; the result
      shares no node with either. */
  method ApplyCheckedRef(document: Ref, ops: seq<NodeOp>, ghost views: seq<PatchOp>, ghost feet: set<object>, schema: Option<Entry>)
    returns (r: Result<Ref, Error>)
    requires Ok(document) && Hold(ops, views, feet)
    ensures Computes(r, ApplyChecked(View(document), views, schema, AsCoded))
    ensures r.Success? ==> fresh(Foot(r.value))
  {
    hide ApplyPatch, Normalize;
    r := ApplyPatchRef(document, ops, views);
    if r.Success? && schema.Some? {
      r := NormalizeRef(r.value, schema.value);
    }
  }

  /** What either way to a patch gives: the operations with all they stand for and hold, or why
      there are none. */
  ghost predicate Makes(r: Result<seq<NodeOp>, Refusal>, views: seq<PatchOp>, feet: set<object>, spec: Result<seq<PatchOp>, Refusal>)
    reads feet
  {
    if r.Failure? then spec == Failure(r.error) else Hold(r.value, views, feet) && spec == Success(views)
  }

  /** `create_patch_from_changes`: neither the original nor the current content changes, and the
      patch holds only new nodes, so later edits of the item do not reach it. */
  method CreatePatchFromChangesRef(original: Ref, current: Ref, schema: Entry)
    returns (r: Result<seq<NodeOp>, Refusal>, ghost views: seq<PatchOp>, ghost feet: set<object>)
    requires Ok(original) && Ok(current)
    ensures Makes(r, views, feet, CreatePatchFromChanges(View(original), View(current), schema))
    ensures fresh(feet)
  {
    hide Normalize, ApplyChecked, Hold, DiffOps;
    views, feet := [], {};
    var before := NormalizeRef(original, schema);
    var after := NormalizeRef(current, schema);
    if before.Failure? {
      return Failure(Raised(before.error)), views, feet;
    }
    if after.Failure? {
      return Failure(Raised(after.error)), views, feet;
    }
    r, views, feet := PatchBetween(before.value, after.value, schema);
  }

  /** The diff of two normal forms, when it is not empty and passes the local check. */
  method PatchBetween(before: Ref, after: Ref, schema: Entry)
    returns (r: Result<seq<NodeOp>, Refusal>, ghost views: seq<PatchOp>, ghost feet: set<object>)
    requires Ok(before) && Ok(after)
    ensures fresh(feet)
    ensures var ops := DiffOps(View(before), View(after));
            var checked := ApplyChecked(View(before), ops, Some(schema), AsCoded);
            Makes(r, views, feet,
                  if ops == [] then Failure(NoChanges) else if checked.Failure? then Failure(Raised(checked.error)) else Success(ops))
  {
    hide ApplyChecked, Hold, DiffOps;
    var ops;
    ops, views, feet := RunDiff(before, after);
    SameLength(ops, views, feet);
    if ops == [] {
      return Failure(NoChanges), views, feet;
    }
    var checked := ApplyCheckedRef(before, ops, views, feet, Some(schema));
    if checked.Failure? {
      return Failure(Raised(checked.error)), views, feet;
    }
    r := Success(ops);
  }

  lemma {:induction false} SameLength(ops: seq<NodeOp>, views: seq<PatchOp>, feet: set<object>)
    requires Hold(ops, views, feet)
    ensures |ops| == |views|
  {
  }

  /** `create_patch`, for a parsed patch: the patch itself, or the error of its local check. */
  method CreatePatchRef(original: Ref, ops: seq<NodeOp>, ghost views: seq<PatchOp>, ghost feet: set<object>, schema: Entry)
    returns (r: Result<seq<NodeOp>, Error>)
    requires Ok(original) && Hold(ops, views, feet)
    ensures r == (var spec := CreatePatch(View(original), views, schema); if spec.Failure? then Failure(spec.error) else Success(ops))
  {
    hide ApplyChecked, Hold;
    var checked := ApplyCheckedRef(original, ops, views, feet, Some(schema));
    r := if checked.Failure? then Failure(checked.error) else Success(ops);
  }
}
