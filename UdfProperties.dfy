/** What udf.py's rebuild does, stated against an independent reference: the
    rebuild `Descend` along an explicit list of field names, with an
    arbitrary transform of the value found at its end. */
module UdfProperties {
  import opened Column
  import opened Paths
  import opened Udf

  /** Reference rebuild: replace the value at `path` by `at` of it, rebuilding
      every enclosing struct with `withField`. */
  function Descend(v: Value, path: seq<string>, at: Value -> Result<Value>): Result<Value>
    decreases |path|
  {
    if |path| == 0 then at(v)
    else
      var sub :- GetField(v, path[0]);
      var inner :- Descend(sub, path[1..], at);
      WithField(v, path[0], inner)
  }

  /** The leaf transform applied with a fixed `remaining` argument. */
  function LeafAt<A>(structFunc: Leaf<A>, name: string, args: A): Value -> Result<Value>
  {
    c => structFunc(c, name, args)
  }

  /** The array handling of `update_struct`, applied to the value it runs on. */
  function ArrayAt<A>(arrayPath: string, structFunc: Leaf<A>, args: A): Value -> Result<Value>
  {
    c => ArrayStep(c, arrayPath, structFunc, args)
  }

  /** `update_struct` with an exhausted path, applied to the value it runs on. */
  function AtEnd<A>(structFunc: Leaf<A>, arrayPath: Option<string>, args: A): Value -> Result<Value>
  {
    c => UpdateStruct(c, "", structFunc, arrayPath, args)
  }

  /** Same kind of node with the same field names in the same order. */
  predicate SameLayout(a: Value, b: Value)
  {
    (a == Null && b == Null) || (a.Struct? && b.Struct? && Names(a.fields) == Names(b.fields))
  }

  // ---------------------------------------------------------------------
  // The reference rebuild changes exactly the addressed location.
  // ---------------------------------------------------------------------

  /** A path that leaves the rebuilt path at some level reads the same value
      before and after: siblings of every struct on the path are untouched. */
  lemma {:induction false} DescendKeepsSiblings(v: Value, path: seq<string>, at: Value -> Result<Value>, q: seq<string>, k: nat)
    requires Descend(v, path, at).Ok?
    requires k < |path| && k < |q| && q[..k] == path[..k] && q[k] != path[k]
    ensures GetPath(Descend(v, path, at).value, q) == GetPath(v, q)
    decreases k
  {
    var r := Descend(v, path, at).value;
    if v.Null? {
      assert r == Null;
      NullPath(q);
    } else {
      var sub := GetField(v, path[0]).value;
      var inner := Descend(sub, path[1..], at).value;
      assert r == WithField(v, path[0], inner).value;
      if k > 0 {
        assert q[0] == q[..k][0] == path[..k][0] == path[0];
        assert q[1..][..k - 1] == q[..k][1..] == path[..k][1..] == path[1..][..k - 1];
        DescendKeepsSiblings(sub, path[1..], at, q[1..], k - 1);
      }
    }
  }

  /** When no struct on the path is null, the value now at `path` is `at` of
      the value that was there. */
  lemma {:induction false} DescendReachesTarget(v: Value, path: seq<string>, at: Value -> Result<Value>)
    requires Descend(v, path, at).Ok?
    requires forall k :: 0 <= k < |path| ==> GetPath(v, path[..k]) != Ok(Null)
    ensures GetPath(v, path).Ok?
    ensures at(GetPath(v, path).value) == GetPath(Descend(v, path, at).value, path)
    decreases |path|
  {
    if |path| > 0 {
      assert GetPath(v, path[..0]) == Ok(v);
      var sub := GetField(v, path[0]).value;
      forall k | 0 <= k < |path| - 1
        ensures GetPath(sub, path[1..][..k]) != Ok(Null)
      {
        assert path[..k + 1][0] == path[0];
        assert path[..k + 1][1..] == path[1..][..k];
        assert GetPath(v, path[..k + 1]) == GetPath(sub, path[1..][..k]);
      }
      DescendReachesTarget(sub, path[1..], at);
    }
  }

  /** Every struct on the path keeps its field names and their order (and a
      null one stays null). */
  lemma {:induction false} DescendKeepsLayout(v: Value, path: seq<string>, at: Value -> Result<Value>)
    requires Descend(v, path, at).Ok?
    ensures forall k :: 0 <= k < |path| ==>
      && GetPath(v, path[..k]).Ok?
      && GetPath(Descend(v, path, at).value, path[..k]).Ok?
      && SameLayout(GetPath(v, path[..k]).value, GetPath(Descend(v, path, at).value, path[..k]).value)
    decreases |path|
  {
    var r := Descend(v, path, at).value;
    if |path| > 0 {
      assert GetPath(v, path[..0]) == Ok(v) && GetPath(r, path[..0]) == Ok(r);
      if v.Null? {
        assert r == Null;
        forall k | 0 <= k < |path|
          ensures GetPath(v, path[..k]) == Ok(Null) && GetPath(r, path[..k]) == Ok(Null)
        {
          NullPath(path[..k]);
        }
      } else {
        var sub := GetField(v, path[0]).value;
        var inner := Descend(sub, path[1..], at).value;
        assert r == WithField(v, path[0], inner).value;
        DescendKeepsLayout(sub, path[1..], at);
        forall k | 1 <= k < |path|
          ensures GetPath(v, path[..k]) == GetPath(sub, path[1..][..k - 1])
          ensures GetPath(r, path[..k]) == GetPath(inner, path[1..][..k - 1])
        {
          assert path[..k][0] == path[0];
          assert path[..k][1..] == path[1..][..k - 1];
        }
      }
    }
  }

  /** A field missing from a struct on the path makes the rebuild fail
      (the engine's analysis error is propagated, never repaired). */
  lemma {:induction false} DescendMissingField(v: Value, path: seq<string>, at: Value -> Result<Value>, k: nat, fs: seq<Field>)
    requires k < |path| && GetPath(v, path[..k]) == Ok(Struct(fs)) && path[k] !in Names(fs)
    ensures Descend(v, path, at).Err?
    decreases k
  {
    if k == 0 {
      assert v == Struct(fs);
    } else {
      assert path[..k][0] == path[0];
      assert path[..k][1..] == path[1..][..k - 1];
      var sub := GetField(v, path[0]).value;
      DescendMissingField(sub, path[1..], at, k - 1, fs);
    }
  }

  /** Conversely, when every value on the path is a struct holding the next
      field and the transform succeeds on the value at its end, the rebuild
      succeeds. */
  lemma {:induction false} DescendSucceeds(v: Value, path: seq<string>, at: Value -> Result<Value>)
    requires forall k :: 0 <= k < |path| ==>
      GetPath(v, path[..k]).Ok? && GetPath(v, path[..k]).value.Struct? && path[k] in Names(GetPath(v, path[..k]).value.fields)
    requires GetPath(v, path).Ok? && at(GetPath(v, path).value).Ok?
    ensures Descend(v, path, at).Ok?
    decreases |path|
  {
    if |path| > 0 {
      assert GetPath(v, path[..0]) == Ok(v);
      var sub := GetField(v, path[0]).value;
      forall k | 0 <= k < |path| - 1
        ensures GetPath(sub, path[1..][..k]) == GetPath(v, path[..k + 1])
      {
        assert path[..k + 1][0] == path[0];
        assert path[..k + 1][1..] == path[1..][..k];
      }
      DescendSucceeds(sub, path[1..], at);
    }
  }

  // ---------------------------------------------------------------------
  // update_struct is the reference rebuild.
  // ---------------------------------------------------------------------

  /** Without an array path, `update_struct` along `s1.….sn` (all non-empty)
      rebuilds exactly that path and hands the leaf the old value there and
      the last segment name `sn` as its `remaining` argument. */
  lemma {:induction false} PlainPathUpdate<A>(col: Value, path: seq<string>, structFunc: Leaf<A>, args: A)
    requires |path| >= 1 && Addressable(path)
    ensures UpdateStruct(col, Join(path), structFunc, None, args)
         == Descend(col, path, LeafAt(structFunc, path[|path| - 1], args))
    decreases |path|
  {
    SplitJoin(path);
    if |path| > 1 {
      var sub := GetField(col, path[0]);
      if sub.Ok? {
        PlainPathUpdate(sub.value, path[1..], structFunc, args);
        assert path[1..][|path| - 2] == path[|path| - 1];
      }
    }
  }

  /** With a non-empty array path, the named path is descended in full and
      then one hop more: array handling runs on the value of the last named
      field, never earlier. */
  lemma {:induction false} ArrayPathUpdate<A>(col: Value, path: seq<string>, structFunc: Leaf<A>, arrayPath: string, args: A)
    requires |path| >= 1 && Addressable(path) && |arrayPath| > 0
    ensures UpdateStruct(col, Join(path), structFunc, Some(arrayPath), args)
         == Descend(col, path, ArrayAt(arrayPath, structFunc, args))
    decreases |path|
  {
    SplitJoin(path);
    var sub := GetField(col, path[0]);
    if sub.Ok? {
      if |path| > 1 {
        ArrayPathUpdate(sub.value, path[1..], structFunc, arrayPath, args);
      } else {
        EmptyHeadStops(sub.value, "", structFunc, Some(arrayPath), args);
      }
    }
  }

  /** An array path of `""` is absent for the extra hop (a truthiness test)
      but present for array handling (an `is not None` test): the last named
      segment is never entered, and array handling runs on field `""` of the
      struct that holds it. */
  lemma {:induction false} EmptyArrayPathUpdate<A>(col: Value, path: seq<string>, structFunc: Leaf<A>, args: A)
    requires |path| >= 1 && Addressable(path)
    ensures UpdateStruct(col, Join(path), structFunc, Some(""), args)
         == Descend(col, path[..|path| - 1], ArrayAt("", structFunc, args))
    decreases |path|
  {
    var at := ArrayAt("", structFunc, args);
    assert |Split(Join(path))| == |path| && Head(Join(path)) == path[0] && Tail(Join(path)) == Join(path[1..]) by {
      SplitJoin(path);
    }
    if |path| == 1 {
      assert path[..0] == [];
    } else {
      var sub := GetField(col, path[0]);
      var prefix := path[..|path| - 1];
      assert prefix[0] == path[0];
      if sub.Ok? {
        var inner := UpdateStruct(sub.value, Join(path[1..]), structFunc, Some(""), args);
        var rest := path[1..];
        assert inner == Descend(sub.value, rest[..|rest| - 1], ArrayAt("", structFunc, args)) by {
          assert Addressable(rest);
          EmptyArrayPathUpdate(sub.value, rest, structFunc, args);
        }
        assert prefix[1..] == rest[..|rest| - 1];
        var rebuilt := if inner.Ok? then WithField(col, path[0], inner.value) else Err(inner.error);
        assert UpdateStruct(col, Join(path), structFunc, Some(""), args) == rebuilt;
        assert Descend(col, prefix, at) == rebuilt;
      } else {
        assert UpdateStruct(col, Join(path), structFunc, Some(""), args) == Err(sub.error);
        assert Descend(col, prefix, at) == Err(sub.error);
      }
    }
  }

  /** An empty first segment (the path `""`, or one starting with a dot)
      stops the descent and ignores the rest of the path: with an array path
      the array handling runs on the current value, otherwise the leaf is
      applied to its field `""`. */
  lemma EmptyHeadStops<A>(col: Value, remaining: string, structFunc: Leaf<A>, arrayPath: Option<string>, args: A)
    requires Head(remaining) == ""
    ensures UpdateStruct(col, remaining, structFunc, arrayPath, args)
         == if arrayPath.Some? then ArrayStep(col, arrayPath.value, structFunc, args)
            else Descend(col, [""], LeafAt(structFunc, "", args))
  {
  }

  /** Descent stops at the first empty segment anywhere in the path: the
      named prefix is rebuilt and everything after the empty segment is
      ignored, whatever the array path. */
  lemma {:induction false} EmptySegmentStops<A>(col: Value, prefix: seq<string>, rest: seq<string>, structFunc: Leaf<A>, arrayPath: Option<string>, args: A)
    requires Addressable(prefix) && DotFree(rest)
    ensures UpdateStruct(col, Join(prefix + [""] + rest), structFunc, arrayPath, args)
         == Descend(col, prefix, AtEnd(structFunc, arrayPath, args))
    decreases |prefix|
  {
    var path := prefix + [""] + rest;
    assert DotFree(path) by {
      forall i | 0 <= i < |path| ensures '.' !in path[i] {
        if i < |prefix| { assert path[i] == prefix[i]; }
        else if i > |prefix| { assert path[i] == rest[i - |prefix| - 1]; }
      }
    }
    var at := AtEnd(structFunc, arrayPath, args);
    assert |Split(Join(path))| == |path| && Head(Join(path)) == path[0] && Tail(Join(path)) == Join(path[1..]) by {
      SplitJoin(path);
    }
    if |prefix| == 0 {
      assert path[0] == "";
      EmptyHeadStops(col, Join(path), structFunc, arrayPath, args);
      EmptyHeadStops(col, "", structFunc, arrayPath, args);
    } else {
      assert path[0] == prefix[0];
      assert path[1..] == prefix[1..] + [""] + rest;
      var sub := GetField(col, prefix[0]);
      if sub.Ok? {
        var inner := UpdateStruct(sub.value, Join(path[1..]), structFunc, arrayPath, args);
        assert inner == Descend(sub.value, prefix[1..], at) by {
          assert Addressable(prefix[1..]);
          EmptySegmentStops(sub.value, prefix[1..], rest, structFunc, arrayPath, args);
        }
        var rebuilt := if inner.Ok? then WithField(col, prefix[0], inner.value) else Err(inner.error);
        assert UpdateStruct(col, Join(path), structFunc, arrayPath, args) == rebuilt;
        assert Descend(col, prefix, at) == rebuilt;
      } else {
        assert UpdateStruct(col, Join(path), structFunc, arrayPath, args) == Err(sub.error);
        assert Descend(col, prefix, at) == Err(sub.error);
      }
    }
  }

  /** The subject of the main property in one statement: without an array
      path and with no null struct on the way, the value at `s1.….sn`
      becomes `struct_func(old, sn, args)`. */
  lemma UpdateStructTarget<A>(col: Value, path: seq<string>, structFunc: Leaf<A>, args: A)
    requires |path| >= 1 && Addressable(path)
    requires UpdateStruct(col, Join(path), structFunc, None, args).Ok?
    requires forall k :: 0 <= k < |path| ==> GetPath(col, path[..k]) != Ok(Null)
    ensures GetPath(col, path).Ok?
    ensures GetPath(UpdateStruct(col, Join(path), structFunc, None, args).value, path)
         == structFunc(GetPath(col, path).value, path[|path| - 1], args)
  {
    var at := LeafAt(structFunc, path[|path| - 1], args);
    PlainPathUpdate(col, path, structFunc, args);
    DescendReachesTarget(col, path, at);
  }

  /** ... and every value off that path reads the same as before. */
  lemma UpdateStructSiblings<A>(col: Value, path: seq<string>, structFunc: Leaf<A>, args: A, q: seq<string>, k: nat)
    requires |path| >= 1 && Addressable(path)
    requires UpdateStruct(col, Join(path), structFunc, None, args).Ok?
    requires k < |path| && k < |q| && q[..k] == path[..k] && q[k] != path[k]
    ensures GetPath(UpdateStruct(col, Join(path), structFunc, None, args).value, q) == GetPath(col, q)
  {
    PlainPathUpdate(col, path, structFunc, args);
    DescendKeepsSiblings(col, path, LeafAt(structFunc, path[|path| - 1], args), q, k);
  }

  // ---------------------------------------------------------------------
  // Array broadcast.
  // ---------------------------------------------------------------------

  /** Array handling replaces the array in field `Head(arrayPath)` by one of
      the same length and order whose element `i` is the leaf applied to
      element `i` alone, with `Tail(arrayPath)` as `remaining`; it fails
      exactly when the leaf fails on some element. */
  lemma Broadcast<A>(col: Value, arrayPath: string, structFunc: Leaf<A>, args: A, items: seq<Value>)
    requires col.Struct? && GetField(col, Head(arrayPath)) == Ok(Array(items))
    ensures ArrayStep(col, arrayPath, structFunc, args).Ok?
        <==> forall i :: 0 <= i < |items| ==> structFunc(items[i], Tail(arrayPath), args).Ok?
    ensures ArrayStep(col, arrayPath, structFunc, args).Ok? ==>
      var out := GetField(ArrayStep(col, arrayPath, structFunc, args).value, Head(arrayPath));
      && out.Ok? && out.value.Array?
      && |out.value.items| == |items|
      && forall i :: 0 <= i < |items| ==> out.value.items[i] == structFunc(items[i], Tail(arrayPath), args).value
  {
  }

  // ---------------------------------------------------------------------
  // struct_repl and group_to_primitive.
  // ---------------------------------------------------------------------

  /** `struct_repl` along `h.t1.….tn` is the plain rebuild of that path with
      `group_to_primitive` (given `tn`) at its end. */
  lemma StructReplPath(col: Value, path: seq<string>, args: DriftArgs)
    requires |path| >= 2 && Addressable(path)
    ensures StructRepl(col, Join(path), args)
         == Descend(col, path, LeafAt(GroupToPrimitive, path[|path| - 1], args))
  {
    var at := LeafAt(GroupToPrimitive, path[|path| - 1], args);
    var sub := GetField(col, path[0]);
    assert Head(Join(path)) == path[0] && Tail(Join(path)) == Join(path[1..]) by {
      SplitJoin(path);
    }
    if sub.Ok? {
      var inner := UpdateStruct(sub.value, Join(path[1..]), GroupToPrimitive, None, args);
      assert inner == Descend(sub.value, path[1..], at) by {
        assert Addressable(path[1..]);
        PlainPathUpdate(sub.value, path[1..], GroupToPrimitive, args);
        assert path[1..][|path| - 2] == path[|path| - 1];
      }
      var rebuilt := if inner.Ok? then WithField(col, path[0], inner.value) else Err(inner.error);
      assert StructRepl(col, Join(path), args) == rebuilt;
      assert Descend(col, path, at) == rebuilt;
    } else {
      assert StructRepl(col, Join(path), args) == Err(sub.error);
      assert Descend(col, path, at) == Err(sub.error);
    }
  }

  /** `struct_repl` with a one-segment `remaining` hands `update_struct` the
      empty path, so `group_to_primitive` runs on field `""` of the named
      field, not on the named field itself. */
  lemma StructReplSingle(col: Value, h: string, args: DriftArgs)
    requires '.' !in h
    ensures StructRepl(col, h, args) == Descend(col, [h, ""], LeafAt(GroupToPrimitive, "", args))
  {
    var at := LeafAt(GroupToPrimitive, "", args);
    assert Head(h) == h && Tail(h) == "";
    var sub := GetField(col, h);
    if sub.Ok? {
      var inner := UpdateStruct(sub.value, "", GroupToPrimitive, None, args);
      assert inner == Descend(sub.value, [""], at) by {
        EmptyHeadStops(sub.value, "", GroupToPrimitive, None, args);
      }
      assert [h, ""][1..] == [""];
      var rebuilt := if inner.Ok? then WithField(col, h, inner.value) else Err(inner.error);
      assert StructRepl(col, h, args) == rebuilt;
      assert Descend(col, [h, ""], at) == rebuilt;
    } else {
      assert StructRepl(col, h, args) == Err(sub.error);
      assert Descend(col, [h, ""], at) == Err(sub.error);
    }
  }

  /** The first non-null alternative, in list order, is the one cast to the
      canonical (first) type, whatever `remaining` is. */
  lemma CoalescePriority(col: Value, remaining: string, args: DriftArgs, i: nat)
    requires i < |args.types|
    requires forall j :: 0 <= j < |args.types| ==> GetField(col, args.types[j]).Ok?
    requires GetField(col, args.types[i]) != Ok(Null)
    requires forall j :: 0 <= j < i ==> GetField(col, args.types[j]) == Ok(Null)
    ensures GroupToPrimitive(col, remaining, args) == Ok(args.cast(args.types[0], GetField(col, args.types[i]).value))
  {
    var candidates := GetFields(col, args.types).value;
    CoalesceFirst(candidates, i);
  }

  /** `cast` maps null to null, for every target type. */
  ghost predicate KeepsNull(cast: (string, Value) -> Value)
  {
    forall t :: cast(t, Null) == Null
  }

  /** When every alternative is null the result is null. */
  lemma CoalesceAllNull(col: Value, remaining: string, args: DriftArgs)
    requires |args.types| > 0 && KeepsNull(args.cast)
    requires forall j :: 0 <= j < |args.types| ==> GetField(col, args.types[j]) == Ok(Null)
    ensures GroupToPrimitive(col, remaining, args) == Ok(Null)
  {
    CoalesceNull(GetFields(col, args.types).value);
  }

  // ---------------------------------------------------------------------
  // Termination.
  // ---------------------------------------------------------------------

  /** The number of `update_struct` frames a call opens. This is a mirror of
      the branch conditions of `UpdateStruct`, written out by hand: no proof
      ties it to `UpdateStruct` itself, so `FramesBound` bounds the mirror. */
  function Frames(remaining: string, arrayPath: Option<string>): nat
    decreases |remaining|
  {
    SplitShape(remaining);
    var more := |Split(remaining)| > 1;
    if more && |Head(remaining)| > 0 then 1 + Frames(Tail(remaining), arrayPath)
    else if !more && |Head(remaining)| > 0 && Truthy(arrayPath) then 1 + Frames("", arrayPath)
    else 1
  }

  /** At most one frame per segment, plus the extra hop when the array path
      is truthy; exactly that many when every segment is non-empty. */
  lemma {:induction false} FramesBound(remaining: string, arrayPath: Option<string>)
    ensures Frames(remaining, arrayPath) <= |Split(remaining)| + (if Truthy(arrayPath) then 1 else 0)
    ensures Addressable(Split(remaining)) ==>
      Frames(remaining, arrayPath) == |Split(remaining)| + (if Truthy(arrayPath) then 1 else 0)
    decreases |remaining|
  {
    SplitShape(remaining);
    if |Split(remaining)| > 1 && |Head(remaining)| > 0 {
      SplitTail(remaining);
      FramesBound(Tail(remaining), arrayPath);
      if Addressable(Split(remaining)) {
        assert Addressable(Split(remaining)[1..]);
      }
    } else if |Split(remaining)| == 1 && |Head(remaining)| > 0 && Truthy(arrayPath) {
      assert Frames("", arrayPath) == 1;
    }
  }
}
