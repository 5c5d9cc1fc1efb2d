/** What each operation of a patch does to a document, read back with `_get`: when it succeeds,
    what is then at its path, and what is left alone. */
module OpLaws {
  import opened Wrappers
  import opened Text
  import opened Pointer
  import opened Value
  import opened Patch
  import opened PatchLaws

  // ----- when an edit succeeds

  /** The place exists that an addition needs: a field of an object, or an index of an array up to
      its length, or its append position. */
  predicate CanAdd(doc: JSON, segs: Path)
    requires segs != []
  {
    var parent, last := Parent(doc, segs), segs[|segs| - 1];
    parent.Some? &&
    match parent.value
    case Obj(_) => true
    case Arr(items) => last == "-" || exists i :: 0 <= i <= |items| && last == Decimal(i)
    case _ => false
  }

  lemma {:induction false} AddSucceedsIff(doc: JSON, segs: Path, v: JSON)
    requires segs != []
    ensures Mutate(doc, segs, Insert(v)).Success? <==> CanAdd(doc, segs)
    decreases |segs|
  {
    if |segs| == 1 {
      if doc.Arr? {
        var idx := ParseArrayIndex(segs[0], true);
        if idx.Success? && idx.value.Some? {
          IndexIsDecimal(segs[0], true, idx.value.value);
        }
        forall i | 0 <= i <= |doc.items| && segs[0] == Decimal(i) ensures Mutate(doc, segs, Insert(v)).Success? {
          IndexRoundTrip(i, true);
        }
      }
    } else {
      MutateDeeper(doc, segs, Insert(v));
      if Child(doc, segs[0]).Some? {
        var c, rest := Child(doc, segs[0]).value, segs[1..];
        AddSucceedsIff(c, rest, v);
        assert rest[|rest| - 1] == segs[|segs| - 1];
      }
    }
  }

  /** A removal succeeds exactly when there is something to remove. */
  lemma {:induction false} RemoveSucceedsIff(doc: JSON, segs: Path)
    requires segs != []
    ensures Mutate(doc, segs, Delete).Success? <==> Get(Some(doc), segs).Success? && Get(Some(doc), segs).value.Some?
    decreases |segs|
  {
    if |segs| == 1 {
      assert segs[1..] == [];
    } else {
      MutateDeeper(doc, segs, Delete);
      if Child(doc, segs[0]).Some? {
        GetDeeper(doc, segs);
        RemoveSucceedsIff(Child(doc, segs[0]).value, segs[1..]);
      } else {
        NoChildNoGet(doc, segs);
      }
    }
  }

  lemma {:induction false} NoChildNoGet(doc: JSON, segs: Path)
    requires segs != [] && Child(doc, segs[0]).None?
    ensures Get(Some(doc), segs).Success? ==> Get(Some(doc), segs).value.None?
  {
  }

  // ----- what is at the place afterwards

  /** An addition to an array puts the value before the element of that index, or last for `-` and
      for the length, and moves nothing else. */
  lemma {:induction false} ArrayInsertion(doc: JSON, segs: Path, v: JSON)
    requires segs != [] && Mutate(doc, segs, Insert(v)).Success? && AtArray(doc, segs)
    ensures var items, last := Parent(doc, segs).value.items, segs[|segs| - 1];
            var parent := Get(Some(Mutate(doc, segs, Insert(v)).value), segs[..|segs| - 1]);
            && (last == "-" ==> parent == Success(Some(Arr(items + [v]))))
            && (forall i :: 0 <= i <= |items| && last == Decimal(i) ==>
                  parent == Success(Some(Arr(items[..i] + [v] + items[i..]))))
    decreases |segs|
  {
    var r := Mutate(doc, segs, Insert(v)).value;
    var above := segs[..|segs| - 1];
    if |segs| == 1 {
      var items := doc.items;
      assert above == [];
      forall i | 0 <= i <= |items| && segs[0] == Decimal(i) ensures r == Arr(items[..i] + [v] + items[i..]) {
        IndexRoundTrip(i, true);
        assert items[..|items|] + [v] + items[|items|..] == items + [v];
      }
    } else {
      MutateDeeper(doc, segs, Insert(v));
      var c, rest := Child(doc, segs[0]).value, segs[1..];
      ArrayInsertion(c, rest, v);
      var d := Mutate(c, rest, Insert(v)).value;
      ChildOfWithChild(doc, segs[0], d);
      GetDeeper(r, above);
      assert above[1..] == rest[..|rest| - 1] && rest[|rest| - 1] == segs[|segs| - 1];
    }
  }

  /** A removed field is gone; an element behind a removed one takes its index. */
  lemma {:induction false} GetAfterRemove(doc: JSON, segs: Path)
    requires segs != [] && WF(doc) && Mutate(doc, segs, Delete).Success?
    ensures var r := Get(Some(Mutate(doc, segs, Delete).value), segs);
            var parent := Parent(doc, segs);
            && parent.Some? && (parent.value.Obj? || parent.value.Arr?)
            && (parent.value.Obj? ==> r == Success(None))
            && (parent.value.Arr? ==> exists i ::
                  && 0 <= i < |parent.value.items| && segs[|segs| - 1] == Decimal(i)
                  && r == Success(if i + 1 < |parent.value.items| then Some(parent.value.items[i + 1]) else None))
    decreases |segs|
  {
    var r := Mutate(doc, segs, Delete).value;
    if |segs| == 1 {
      assert segs[1..] == [];
      if doc.Obj? {
        LookupRemoved(doc.fields, segs[0]);
      } else {
        var i := ParseArrayIndex(segs[0], false).value.value;
        IndexIsDecimal(segs[0], false, i);
        assert r.items == doc.items[..i] + doc.items[i + 1..];
        assert Get(Some(r), segs) == Success(if i < |r.items| then Some(r.items[i]) else None);
      }
    } else {
      MutateDeeper(doc, segs, Delete);
      var c, rest := Child(doc, segs[0]).value, segs[1..];
      if doc.Obj? { LookupWF(doc.fields, segs[0]); }
      GetAfterRemove(c, rest);
      var d := Mutate(c, rest, Delete).value;
      ChildOfWithChild(doc, segs[0], d);
      GetDeeper(r, segs);
      assert rest[|rest| - 1] == segs[|segs| - 1];
    }
  }

  /** An edit does not change what kind of container its last segment is looked up in. */
  lemma {:induction false} SameParentKind(doc: JSON, segs: Path, e: Edit)
    requires segs != [] && Mutate(doc, segs, e).Success?
    ensures AtArray(Mutate(doc, segs, e).value, segs) <==> AtArray(doc, segs)
    decreases |segs|
  {
    if |segs| > 1 {
      MutateDeeper(doc, segs, e);
      var c := Child(doc, segs[0]).value;
      SameParentKind(c, segs[1..], e);
      ChildOfWithChild(doc, segs[0], Mutate(c, segs[1..], e).value);
    }
  }

  // ----- two edits at paths that part at a key

  lemma {:induction false} OtherChild(doc: JSON, p: Path, e: Edit, k: string)
    requires doc.Obj? && p != [] && p[0] != k && Mutate(doc, p, e).Success?
    ensures Mutate(doc, p, e).value.Obj? && Child(Mutate(doc, p, e).value, k) == Child(doc, k)
  {
    var fs := doc.fields;
    if |p| > 1 {
      LookupSet(fs, p[0], Mutate(Lookup(fs, p[0]).value, p[1..], e).value, k);
    } else if e.Delete? {
      LookupRemoveOther(fs, p[0], k);
    } else {
      LookupSet(fs, p[0], e.v, k);
    }
  }

  /** Paths that part from an edit, and from each other, still part from each other after it. */
  lemma {:induction false} StillPart(doc: JSON, p: Path, e: Edit, a: Path, b: Path)
    requires p != [] && Mutate(doc, p, e).Success?
    requires PartAtKey(doc, p, a) && PartAtKey(doc, p, b) && PartAtKey(doc, a, b)
    ensures PartAtKey(Mutate(doc, p, e).value, a, b)
    decreases |p|
  {
    if p[0] != a[0] {
      OtherChild(doc, p, e, a[0]);
    } else if p[0] != b[0] {
      OtherChild(doc, p, e, b[0]);
    } else {
      MutateDeeper(doc, p, e);
      var c := Child(doc, p[0]).value;
      StillPart(c, p[1..], e, a[1..], b[1..]);
      ChildOfWithChild(doc, p[0], Mutate(c, p[1..], e).value);
    }
  }

  /** A path that parts from an edit still parts from it afterwards, seen from either side. */
  lemma {:induction false} PartsBack(doc: JSON, p: Path, e: Edit, q: Path)
    requires p != [] && Mutate(doc, p, e).Success? && PartAtKey(doc, p, q)
    ensures PartAtKey(Mutate(doc, p, e).value, q, p)
    decreases |p|
  {
    if p[0] != q[0] {
      OtherChild(doc, p, e, q[0]);
    } else {
      MutateDeeper(doc, p, e);
      var c := Child(doc, p[0]).value;
      PartsBack(c, p[1..], e, q[1..]);
      ChildOfWithChild(doc, p[0], Mutate(c, p[1..], e).value);
    }
  }

  // ----- the operations

  /** What a pointer text reads, when it parses and can be read. */
  function At(doc: JSON, pointer: string): Option<JSON> {
    var segs := ParsePointer(pointer);
    if segs.Failure? || Get(Some(doc), segs.value).Failure? then None else Get(Some(doc), segs.value).value
  }

  /** `test` succeeds exactly when the value at the path equals the given one, Void on either side
      included, and returns the document as it is. */
  lemma {:induction false} TestMeaning(doc: JSON, path: string, value: Option<JSON>, sem: ReplaceMeaning)
    ensures var r := ApplyOp(Some(doc), Test(path, value), sem);
            && (r.Success? <==> && ParsePointer(path).Success? && Get(Some(doc), ParsePointer(path).value).Success?
                                && SlotsEqual(At(doc, path), value))
            && (r.Success? ==> r.value == Some(doc))
  {
  }

  /** `add`, `remove` and `replace` with a value succeed exactly when there is a place, a value to
      remove, or a value to replace and a place. */
  lemma {:induction false} EditsSucceedIff(doc: JSON, path: Path, v: JSON)
    requires path != []
    ensures var p := FormatPointer(path);
            && (forall sem :: ApplyOp(Some(doc), Add(p, Some(v)), sem).Success? <==> CanAdd(doc, path))
            && (forall sem :: ApplyOp(Some(doc), Remove(p), sem).Success? <==> At(doc, p).Some?)
            && (ApplyOp(Some(doc), Replace(p, Some(v)), AsCoded).Success? <==> At(doc, p).Some?)
  {
    ParseFormat(path);
    AddSucceedsIff(doc, path, v);
    RemoveSucceedsIff(doc, path);
    hide Get, Mutate, CanAdd, ParsePointer, FormatPointer;
    if At(doc, FormatPointer(path)).Some? {
      PresentCanAdd(doc, path);
    }
  }

  /** Where there is a value there is a place. */
  lemma {:induction false} PresentCanAdd(doc: JSON, segs: Path)
    requires segs != [] && Get(Some(doc), segs).Success? && Get(Some(doc), segs).value.Some?
    ensures CanAdd(doc, segs)
    decreases |segs|
  {
    if |segs| == 1 {
      assert segs[1..] == [];
      if doc.Arr? {
        IndexIsDecimal(segs[0], false, ParseArrayIndex(segs[0], false).value.value);
      }
    } else {
      if Child(doc, segs[0]).None? {
        NoChildNoGet(doc, segs);
      } else {
        GetDeeper(doc, segs);
        PresentCanAdd(Child(doc, segs[0]).value, segs[1..]);
        assert segs[1..][|segs[1..]| - 1] == segs[|segs| - 1];
      }
    }
  }

  /** `add` and `remove` at the root: the whole document, or Void, which no patch may end with. */
  lemma {:induction false} RootEdits(doc: Option<JSON>, v: JSON, sem: ReplaceMeaning)
    ensures ApplyOp(doc, Add("", Some(v)), sem) == Success(Some(v))
    ensures ApplyOp(doc, Remove(""), sem) == Success(None)
    ensures doc.Some? ==> ApplyOp(doc, Replace("", Some(v)), sem) == Success(Some(v))
    ensures doc.Some? ==> ApplyPatch(doc.value, [Remove("")], sem) == Failure(PatchErr)
  {
    ParseFormat([]);
    assert FormatPointer([]) == "" && [Remove("")][1..] == [];
  }

  /** After an `add` the path reads the value, the append marker apart; after a `remove` of a field
      it reads Void; whatever parts from the path at a key is unchanged. */
  lemma {:induction false} AddRemoveMeaning(doc: JSON, path: Path, v: JSON, sem: ReplaceMeaning, q: Path)
    requires path != [] && WF(doc)
    ensures var r := ApplyOp(Some(doc), Add(FormatPointer(path), Some(v)), sem);
            r.Success? ==>
              && Get(r.value, path) == (if Appends(doc, path) then Failure(ValueErr) else Success(Some(v)))
              && (PartAtKey(doc, path, q) ==> Get(r.value, q) == Get(Some(doc), q))
    ensures var r := ApplyOp(Some(doc), Remove(FormatPointer(path)), sem);
            r.Success? ==>
              && (!AtArray(doc, path) ==> Get(r.value, path) == Success(None))
              && (PartAtKey(doc, path, q) ==> Get(r.value, q) == Get(Some(doc), q))
  {
    ParseFormat(path);
    hide Get, ParsePointer, FormatPointer, WF;
    if Mutate(doc, path, Insert(v)).Success? {
      GetAfterAdd(doc, path, v);
      if PartAtKey(doc, path, q) { EditElsewhere(doc, path, Insert(v), q); }
    }
    if Mutate(doc, path, Delete).Success? {
      GetAfterRemove(doc, path);
      if PartAtKey(doc, path, q) { EditElsewhere(doc, path, Delete, q); }
    }
  }

  /** An operation without the value it needs fails, except that `replace` of the root by Void leaves Void. */
  lemma {:induction false} MissingValueFails(doc: Option<JSON>, path: string, sem: ReplaceMeaning)
    ensures ApplyOp(doc, Add(path, None), sem).Failure?
    ensures path != "" ==> ApplyOp(doc, Replace(path, None), sem).Failure?
  {
    PointerAcceptedIff(path);
  }

  /** `copy` succeeds exactly when there is a source and a place for it. */
  lemma {:induction false} CopySucceedsIff(doc: JSON, path: Path, from: string, sem: ReplaceMeaning)
    ensures ApplyOp(Some(doc), Copy(FormatPointer(path), from), sem).Success?
            <==> At(doc, from).Some? && (path != [] ==> CanAdd(doc, path))
  {
    ParseFormat(path);
    hide Get, Mutate, CanAdd, ParsePointer, FormatPointer;
    if path != [] && At(doc, from).Some? {
      AddSucceedsIff(doc, path, At(doc, from).value);
    }
  }

  /** After a `copy` the path reads what the source read, and whatever parts from the path at a key
      is unchanged, the source included when it does. Onto the root it is the whole document. */
  lemma {:induction false} CopyMeaning(doc: JSON, path: Path, from: Path, sem: ReplaceMeaning, q: Path)
    requires ApplyOp(Some(doc), Copy(FormatPointer(path), FormatPointer(from)), sem).Success?
    ensures var r := ApplyOp(Some(doc), Copy(FormatPointer(path), FormatPointer(from)), sem).value;
            && Get(Some(doc), from).Success? && Get(Some(doc), from).value.Some?
            && (path == [] ==> r == Get(Some(doc), from).value)
            && (path != [] ==> Get(r, path) == if Appends(doc, path) then Failure(ValueErr) else Get(Some(doc), from))
            && (PartAtKey(doc, path, q) ==> Get(r, q) == Get(Some(doc), q))
            && (PartAtKey(doc, path, from) ==> Get(r, from) == Get(Some(doc), from))
  {
    ParseFormat(path);
    ParseFormat(from);
    hide Get, Mutate, Appends, ParsePointer, FormatPointer;
    if path != [] {
      var v := Get(Some(doc), from).value.value;
      GetAfterAdd(doc, path, v);
      if PartAtKey(doc, path, q) { EditElsewhere(doc, path, Insert(v), q); }
      if PartAtKey(doc, path, from) { EditElsewhere(doc, path, Insert(v), from); }
    }
  }

  /** `move` onto a proper descendant of its source fails, whatever the document. */
  lemma {:induction false} MoveIntoItselfFails(doc: Option<JSON>, path: Path, from: Path, sem: ReplaceMeaning)
    requires from < path
    ensures ApplyOp(doc, Move(FormatPointer(path), FormatPointer(from)), sem).Failure?
  {
    MoveGuardIsProperPrefix(from, path);
    hide Get, Mutate, ParsePointer, FormatPointer;
  }

  /** Otherwise `move` is a removal at the source and an addition, at the path, of what was there
      (section 4.4 of RFC 6902): it succeeds exactly when those do, and gives what they give. */
  lemma {:induction false} MoveIsRemoveThenAdd(doc: JSON, path: Path, from: Path, sem: ReplaceMeaning)
    requires !(from < path)
    ensures var r := ApplyOp(Some(doc), Move(FormatPointer(path), FormatPointer(from)), sem);
            var v := At(doc, FormatPointer(from));
            if v.None? then r.Failure?
            else if from == [] then r == Success(Some(doc))
            else
              var d := Mutate(doc, from, Delete);
              && d.Success?
              && (path == [] ==> r == Success(v))
              && (path != [] ==> && (r.Success? <==> CanAdd(d.value, path))
                                 && (r.Success? ==> Mutate(d.value, path, Insert(v.value)).Success?
                                                    && r.value == Some(Mutate(d.value, path, Insert(v.value)).value)))
  {
    MoveGuardIsProperPrefix(from, path);
    ParseFormat(path);
    ParseFormat(from);
    if from == [] {
      assert path == [];
    } else {
      RemoveSucceedsIff(doc, from);
      var d, v := Mutate(doc, from, Delete), At(doc, FormatPointer(from));
      if d.Success? && v.Some? && path != [] {
        AddSucceedsIff(d.value, path, v.value);
      }
    }
    hide Mutate, CanAdd, ParsePointer, FormatPointer;
  }

  /** After the `move` of an object field to a path that parts from it at a key: the source is Void,
      the path reads the old value, and whatever parts from both is unchanged. */
  lemma {:induction false} MoveMeaning(doc: JSON, path: Path, from: Path, sem: ReplaceMeaning, q: Path)
    requires WF(doc) && ApplyOp(Some(doc), Move(FormatPointer(path), FormatPointer(from)), sem).Success?
    requires PartAtKey(doc, from, path) && !AtArray(doc, from)
    ensures var r := ApplyOp(Some(doc), Move(FormatPointer(path), FormatPointer(from)), sem).value;
            && r.Some? && Get(r, from) == Success(None)
            && Get(Some(doc), from).Success? && Get(Some(doc), from).value.Some?
            && Get(r, path) == (if Appends(r.value, path) then Failure(ValueErr) else Get(Some(doc), from))
            && (PartAtKey(doc, from, q) && PartAtKey(doc, path, q) ==> Get(r, q) == Get(Some(doc), q))
  {
    PartedNotPrefix(doc, from, path);
    MoveIsRemoveThenAdd(doc, path, from, sem);
    ParseFormat(from);
    hide ApplyOp, CanAdd, ParsePointer, FormatPointer;
    var v := Get(Some(doc), from).value.value;
    hide Get, Mutate, WF;
    var d := Mutate(doc, from, Delete).value;
    GetAfterRemove(doc, from);
    GetAfterAdd(d, path, v);
    SameParentKind(d, path, Insert(v));
    PartsBack(doc, from, Delete, path);
    EditElsewhere(d, path, Insert(v), from);
    if PartAtKey(doc, from, q) && PartAtKey(doc, path, q) {
      EditElsewhere(doc, from, Delete, q);
      StillPart(doc, from, Delete, path, q);
      EditElsewhere(d, path, Insert(v), q);
    }
  }

  lemma {:induction false} PartedNotPrefix(doc: JSON, p: Path, q: Path)
    requires PartAtKey(doc, p, q)
    ensures !(p < q)
    decreases |p|
  {
    if p[0] == q[0] {
      PartedNotPrefix(Child(doc, p[0]).value, p[1..], q[1..]);
    }
  }
}
