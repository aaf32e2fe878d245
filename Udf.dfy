/** udf.py: rebuild a nested record with one addressed location transformed
    (`update_struct`), broadcast that transform over an array on the way
    (`array_path`), and the drift-repair leaf that collapses a struct of
    alternative-typed fields into one primitive (`group_to_primitive`,
    re-entered per array element by `struct_repl`). */
module Udf {
  import opened Column
  import opened Paths

  datatype Option<+T> = None | Some(value: T)

  /** A leaf transform `struct_func(col, remaining, *args)`; the variadic
      arguments are one configuration value of type `A`. */
  type Leaf<-A> = (Value, string, A) -> Result<Value>

  /** The arguments of `group_to_primitive`: the alternative field names,
      canonical type first, and the engine's `cast`, which is not modelled
      and is therefore a parameter. */
  datatype DriftArgs = DriftArgs(types: seq<string>, cast: (string, Value) -> Value)

  /** Python truthiness of `array_path`: `None` and `""` are both false. */
  function Truthy(arrayPath: Option<string>): (b: bool)
    ensures !b <==> arrayPath == None || arrayPath == Some("")
  {
    arrayPath.Some? && |arrayPath.value| > 0
  }

  /** `update_struct(col, remaining, struct_func, array_path, *args)`.
      Whatever path is taken, a struct keeps its field names and their order:
      every rebuild replaces a field that was just read. */
  function UpdateStruct<A>(col: Value, remaining: string, structFunc: Leaf<A>, arrayPath: Option<string>, args: A): (r: Result<Value>)
    ensures r.Ok? && col.Struct? ==> r.value.Struct? && Names(r.value.fields) == Names(col.fields)
    decreases |remaining|
  {
    SplitShape(remaining);
    var fieldName := Head(remaining);
    var more := |Split(remaining)| > 1;
    if more && |fieldName| > 0 then
      // More segments follow a named one: descend into it and rebuild it.
      var sub :- GetField(col, fieldName);
      var inner :- UpdateStruct(sub, Tail(remaining), structFunc, arrayPath, args);
      WithField(col, fieldName, inner)
    else if !more && |fieldName| > 0 && Truthy(arrayPath) then
      // Last named segment and a truthy array path: one extra hop into it.
      var sub :- GetField(col, fieldName);
      var inner :- UpdateStruct(sub, "", structFunc, arrayPath, args);
      WithField(col, fieldName, inner)
    else if arrayPath.Some? then
      // An array path that is not None, even "": array handling here.
      ArrayStep(col, arrayPath.value, structFunc, args)
    else
      // No array path: apply the leaf to the named field itself.
      var sub :- GetField(col, fieldName);
      var x :- structFunc(sub, fieldName, args);
      WithField(col, fieldName, x)
  }

  /** The array handling of `update_struct`: field `Head(arrayPath)` of `col`
      is mapped element by element through `structFunc(_, Tail(arrayPath), args)`.
      The struct keeps its field names and order, and every other field. */
  function ArrayStep<A>(col: Value, arrayPath: string, structFunc: Leaf<A>, args: A): (r: Result<Value>)
    ensures r.Ok? && col.Struct? ==> r.value.Struct? && Names(r.value.fields) == Names(col.fields)
    ensures r.Ok? && col.Struct? ==>
      forall m :: m != Head(arrayPath) ==> GetField(r.value, m) == GetField(col, m)
  {
    var aFieldName := Head(arrayPath);
    var aRemaining := Tail(arrayPath);
    var arr :- GetField(col, aFieldName);
    var mapped :- Transform(arr, c => structFunc(c, aRemaining, args));
    WithField(col, aFieldName, mapped)
  }

  /** `struct_repl(col, remaining, *types)`: rebuild field `Head(remaining)`
      of `col` with `group_to_primitive` applied along `Tail(remaining)`,
      never with an array path. Only that one field of `col` changes. */
  function StructRepl(col: Value, remaining: string, args: DriftArgs): (r: Result<Value>)
    ensures r.Ok? && col.Struct? ==> r.value.Struct? && Names(r.value.fields) == Names(col.fields)
    ensures r.Ok? && col.Struct? ==>
      forall m :: m != Head(remaining) ==> GetField(r.value, m) == GetField(col, m)
  {
    var colName := Head(remaining);
    var remainingFields := Tail(remaining);
    var sub :- GetField(col, colName);
    var inner :- UpdateStruct(sub, remainingFields, GroupToPrimitive, None, args);
    WithField(col, colName, inner)
  }

  /** `col.getField(t)` for every `t` in `names`, in order. */
  function GetFields(col: Value, names: seq<string>): (r: Result<seq<Value>>)
    ensures r.Ok? <==> forall j :: 0 <= j < |names| ==> GetField(col, names[j]).Ok?
    ensures r.Ok? ==> |r.value| == |names| && forall j :: 0 <= j < |names| ==> r.value[j] == GetField(col, names[j]).value
  {
    if |names| == 0 then Ok([])
    else
      var head :- GetField(col, names[0]);
      var tail :- GetFields(col, names[1..]);
      Ok([head] + tail)
  }

  /** `group_to_primitive(col, remaining, *types)`: coalesce the fields named
      by `types`, in order, and cast the result to `types[0]`; `remaining`
      is not used. It fails when there is no type (`types[0]`) or when a
      named field cannot be read. */
  function GroupToPrimitive(col: Value, remaining: string, args: DriftArgs): (r: Result<Value>)
    ensures r.Ok? <==> |args.types| > 0 && forall j :: 0 <= j < |args.types| ==> GetField(col, args.types[j]).Ok?
    ensures |args.types| == 0 ==> r == Err(NoTypes)
  {
    var candidates :- GetFields(col, args.types);
    if |args.types| == 0 then Err(NoTypes)
    else Ok(args.cast(args.types[0], Coalesce(candidates)))
  }
}
