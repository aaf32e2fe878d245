/** Worked examples of udf.py on concrete records. */
module Scenarios {
  import opened Column
  import opened Paths
  import opened Udf
  import opened UdfProperties

  function Int(n: int): Value
  {
    Prim("int", n)
  }

  /** A leaf that adds one to an integer and leaves anything else alone. */
  function Increment(v: Value, remaining: string, u: ()): Result<Value>
  {
    match v
    case Prim(t, n) => Ok(Prim(t, n + 1))
    case _ => Ok(v)
  }

  /** A leaf for array elements: negate the element's field `remaining`. */
  function NegateField(v: Value, remaining: string, u: ()): Result<Value>
  {
    var x :- GetField(v, remaining);
    var y := match x
      case Prim(t, n) => Prim(t, -n)
      case _ => x;
    WithField(v, remaining, y)
  }

  /** Reading and rebuilding the first of two differently named fields. */
  lemma FirstOfTwo(n1: string, v1: Value, n2: string, v2: Value, y: Value)
    requires n1 != n2
    ensures GetField(Struct([Field(n1, v1), Field(n2, v2)]), n1) == Ok(v1)
    ensures WithField(Struct([Field(n1, v1), Field(n2, v2)]), n1, y) == Ok(Struct([Field(n1, y), Field(n2, v2)]))
  {
    var s := Struct([Field(n1, v1), Field(n2, v2)]);
    assert Names(s.fields) == [n1, n2];
    assert WithField(s, n1, y).value.fields == [Field(n1, y), Field(n2, v2)];
  }

  /** Descending through a one-field struct rebuilds it around the result. */
  lemma DescendSingle(n: string, v: Value, rest: seq<string>, at: Value -> Result<Value>, y: Value)
    requires Descend(v, rest, at) == Ok(y)
    ensures Descend(Struct([Field(n, v)]), [n] + rest, at) == Ok(Struct([Field(n, y)]))
  {
    var s := Struct([Field(n, v)]);
    assert ([n] + rest)[0] == n && ([n] + rest)[1..] == rest;
    assert Names(s.fields) == [n];
    assert GetField(s, n) == Ok(v);
    assert WithField(s, n, y).value.fields == [Field(n, y)];
  }

  /** The path `a.b.c` is the three segments `a`, `b`, `c`. */
  lemma PathABC()
    ensures Join(["a", "b", "c"]) == "a.b.c"
    ensures Addressable(["a", "b", "c"])
  {
    assert Join(["c"]) == "c";
    assert ["b", "c"][1..] == ["c"];
    assert Join(["b", "c"]) == "b.c";
    assert ["a", "b", "c"][1..] == ["b", "c"];
    assert forall k :: 0 <= k < 3 ==> ["a", "b", "c"][k] in {"a", "b", "c"};
  }

  /** The increment leaf at field `c` of `{c: 1, d: 2}`. */
  lemma IncrementAtC()
    ensures Descend(Struct([Field("c", Int(1)), Field("d", Int(2))]), ["c"], LeafAt(Increment, "c", ()))
         == Ok(Struct([Field("c", Int(2)), Field("d", Int(2))]))
  {
    var at := LeafAt(Increment, "c", ());
    assert ["c"][1..] == [];
    assert at(Int(1)) == Increment(Int(1), "c", ());
    assert at(Int(1)) == Ok(Int(2));
    FirstOfTwo("c", Int(1), "d", Int(2), Int(2));
  }

  /** `{a: {b: {c: 1, d: 2}}}` along `"a.b.c"` with an increment leaf gives
      `{a: {b: {c: 2, d: 2}}}`. */
  lemma NestedIncrement()
    ensures UpdateStruct(
              Struct([Field("a", Struct([Field("b", Struct([Field("c", Int(1)), Field("d", Int(2))]))]))]),
              "a.b.c", Increment, None, ())
         == Ok(Struct([Field("a", Struct([Field("b", Struct([Field("c", Int(2)), Field("d", Int(2))]))]))]))
  {
    var c := Struct([Field("c", Int(1)), Field("d", Int(2))]);
    var c' := Struct([Field("c", Int(2)), Field("d", Int(2))]);
    var b := Struct([Field("b", c)]);
    var b' := Struct([Field("b", c')]);
    var a := Struct([Field("a", b)]);
    var at := LeafAt(Increment, "c", ());
    var path := ["a", "b", "c"];
    IncrementAtC();
    assert ["b"] + ["c"] == ["b", "c"];
    DescendSingle("b", c, ["c"], at, c');
    assert ["a"] + ["b", "c"] == path;
    DescendSingle("a", b, ["b", "c"], at, b');
    PathABC();
    PlainPathUpdate(a, path, Increment, ());
  }

  /** With `type_1` non-null, its value is the one cast to `type_1`. */
  lemma DriftRepairFirst(cast: (string, Value) -> Value, remaining: string, type1: string, type2: string, x: Value)
    requires type1 != type2 && x != Null
    ensures GroupToPrimitive(Struct([Field(type1, x), Field(type2, Null)]), remaining, DriftArgs([type1, type2], cast))
         == Ok(cast(type1, x))
  {
    var inner := Struct([Field(type1, x), Field(type2, Null)]);
    assert Names(inner.fields) == [type1, type2];
    assert GetField(inner, type1) == Ok(x);
    assert GetField(inner, type2) == Ok(Null);
    CoalescePriority(inner, remaining, DriftArgs([type1, type2], cast), 0);
  }

  /** `{value: {type_1: x, type_2: null}}` along `"value"` with
      `group_to_primitive` over `[type_1, type_2]` gives
      `{value: cast(type_1, x)}`, for any non-null `x`. */
  lemma DriftRepair(cast: (string, Value) -> Value, value: string, type1: string, type2: string, x: Value)
    requires |value| > 0 && '.' !in value && type1 != type2 && x != Null
    ensures UpdateStruct(
              Struct([Field(value, Struct([Field(type1, x), Field(type2, Null)]))]),
              value, GroupToPrimitive, None, DriftArgs([type1, type2], cast))
         == Ok(Struct([Field(value, cast(type1, x))]))
  {
    var args := DriftArgs([type1, type2], cast);
    var inner := Struct([Field(type1, x), Field(type2, Null)]);
    var col := Struct([Field(value, inner)]);
    var y := cast(type1, x);
    var at := LeafAt(GroupToPrimitive, value, args);
    assert at(inner) == Ok(y) by {
      assert at(inner) == GroupToPrimitive(inner, value, args);
      DriftRepairFirst(cast, value, type1, type2, x);
    }
    assert Descend(col, [value], at) == Ok(Struct([Field(value, y)])) by {
      assert [value] + [] == [value];
      DescendSingle(value, inner, [], at, y);
    }
    assert UpdateStruct(col, value, GroupToPrimitive, None, args) == Descend(col, [value], at) by {
      assert Join([value]) == value;
      PlainPathUpdate(col, [value], GroupToPrimitive, args);
    }
  }

  /** When `type_1` is null the `type_2` value is the one cast, still to `type_1`. */
  lemma DriftRepairSecond(cast: (string, Value) -> Value)
    ensures GroupToPrimitive(
              Struct([Field("type_1", Null), Field("type_2", Prim("string", 7))]),
              "value", DriftArgs(["type_1", "type_2"], cast))
         == Ok(cast("type_1", Prim("string", 7)))
  {
    var col := Struct([Field("type_1", Null), Field("type_2", Prim("string", 7))]);
    assert Names(col.fields) == ["type_1", "type_2"];
    assert GetField(col, "type_1") == Ok(Null);
    assert GetField(col, "type_2") == Ok(Prim("string", 7));
    CoalescePriority(col, "value", DriftArgs(["type_1", "type_2"], cast), 1);
  }

  /** `struct_repl` cannot repair a drift struct directly below the element:
      with `remaining` the one segment `v`, `group_to_primitive` asks the
      drift struct for field `""`, which it does not have. */
  lemma ShallowStructReplFails(cast: (string, Value) -> Value, v: string, type1: string, type2: string, x: Value)
    requires '.' !in v && |type1| > 0 && |type2| > 0
    ensures StructRepl(Struct([Field(v, Struct([Field(type1, x), Field(type2, Null)]))]), v, DriftArgs([type1, type2], cast)).Err?
  {
    var args := DriftArgs([type1, type2], cast);
    var inner := Struct([Field(type1, x), Field(type2, Null)]);
    var col := Struct([Field(v, inner)]);
    StructReplSingle(col, v, args);
    assert GetField(col, v) == Ok(inner) by {
      assert Names(col.fields) == [v];
    }
    assert GetField(inner, "").Err? by {
      assert Names(inner.fields) == [type1, type2];
    }
    assert [v, ""][1..] == [""];
  }

  /** `NegateField` on a one-field element `{x: n}`. */
  lemma NegateElement(x: string, n: int)
    ensures NegateField(Struct([Field(x, Int(n))]), x, ()) == Ok(Struct([Field(x, Int(-n))]))
  {
    var e := Struct([Field(x, Int(n))]);
    assert Names(e.fields) == [x];
    assert GetField(e, x) == Ok(Int(n));
    assert WithField(e, x, Int(-n)).value.fields == [Field(x, Int(-n))];
  }

  /** Array handling on `{items: [{x: n1}, {x: n2}]}` with array path
      `items.x` negates `x` in every element. */
  lemma BroadcastItems(items: string, x: string, n1: int, n2: int)
    requires '.' !in items && '.' !in x
    ensures ArrayStep(Struct([Field(items, Array([Struct([Field(x, Int(n1))]), Struct([Field(x, Int(n2))])]))]),
                      items + "." + x, NegateField, ())
         == Ok(Struct([Field(items, Array([Struct([Field(x, Int(-n1))]), Struct([Field(x, Int(-n2))])]))]))
  {
    var elems := [Struct([Field(x, Int(n1))]), Struct([Field(x, Int(n2))])];
    var elems' := [Struct([Field(x, Int(-n1))]), Struct([Field(x, Int(-n2))])];
    var r := Struct([Field(items, Array(elems))]);
    var path := items + "." + x;
    assert Head(path) == items && Tail(path) == x by {
      SplitPrefix(items, x);
    }
    assert GetField(r, items) == Ok(Array(elems)) by {
      assert Names(r.fields) == [items];
    }
    var out := ArrayStep(r, path, NegateField, ());
    assert out.Ok? && GetField(out.value, items) == Ok(Array(elems')) by {
      NegateElement(x, n1);
      NegateElement(x, n2);
      Broadcast(r, path, NegateField, (), elems);
      var arr := GetField(out.value, items).value;
      assert arr.items[0] == elems'[0] && arr.items[1] == elems'[1];
      assert arr.items == elems';
    }
    assert out.value.fields == [Field(items, Array(elems'))] by {
      assert Names(out.value.fields) == [items];
      assert out.value.fields[0] == Field(items, Array(elems'));
    }
  }

  /** `{r: {items: [{x: n1}, {x: n2}]}}` along `r` with array path
      `items.x`: the extra hop enters `r`, and every element of `items` gets
      its `x` negated. */
  lemma ArrayBroadcast(r: string, items: string, x: string, n1: int, n2: int)
    requires |r| > 0 && '.' !in r && '.' !in items && '.' !in x
    ensures UpdateStruct(
              Struct([Field(r, Struct([Field(items, Array([Struct([Field(x, Int(n1))]), Struct([Field(x, Int(n2))])]))]))]),
              r, NegateField, Some(items + "." + x), ())
         == Ok(Struct([Field(r, Struct([Field(items, Array([Struct([Field(x, Int(-n1))]), Struct([Field(x, Int(-n2))])]))]))]))
  {
    var inner := Struct([Field(items, Array([Struct([Field(x, Int(n1))]), Struct([Field(x, Int(n2))])]))]);
    var inner' := Struct([Field(items, Array([Struct([Field(x, Int(-n1))]), Struct([Field(x, Int(-n2))])]))]);
    var col := Struct([Field(r, inner)]);
    var at := ArrayAt(items + "." + x, NegateField, ());
    assert at(inner) == Ok(inner') by {
      BroadcastItems(items, x, n1, n2);
    }
    assert Descend(col, [r], at) == Ok(Struct([Field(r, inner')])) by {
      assert [r] + [] == [r];
      DescendSingle(r, inner, [], at, inner');
    }
    assert Join([r]) == r;
    ArrayPathUpdate(col, [r], NegateField, items + "." + x, ());
  }

  /** The array path names its field relative to the value after the extra
      hop: with `{items: [...]}`, path `"items"` and array path `"items.x"`,
      the hop enters the array and array handling then asks the array for a
      field, which fails. */
  lemma ArrayPathIsBelowTheHop()
    ensures UpdateStruct(
              Struct([Field("items", Array([Struct([Field("x", Int(1))])]))]),
              "items", NegateField, Some("items.x"), ()).Err?
  {
    ArrayPathUpdate(Struct([Field("items", Array([Struct([Field("x", Int(1))])]))]), ["items"], NegateField, "items.x", ());
    SplitPrefix("items", "x");
  }
}
