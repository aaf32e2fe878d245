/** The slice of the host engine's column API that udf.py relies on, over an
    explicit nested value: reading a struct field (`getField`), replacing or
    appending a struct field (`withField`), mapping over an array
    (`transform`) and taking the first non-null of several values
    (`coalesce`). Spark's runtime null propagation is kept: reading or
    rebuilding a null struct, or mapping over a null array, gives null. */
module Column {

  /** A nested record value. */
  datatype Value =
    | Struct(fields: seq<Field>)
    | Array(items: seq<Value>)
    | Prim(tag: string, payload: int)
    | Null

  /** A named field of a struct; field order is significant. */
  datatype Field = Field(name: string, value: Value)

  /** The failures the engine reports for ill-typed column expressions. */
  datatype Error =
    | MissingField(name: string)
    | NotAStruct(name: string)
    | NotAnArray
    | NoTypes

  datatype Result<+T> = Ok(value: T) | Err(error: Error) {
    predicate IsFailure() {
      Err?
    }

    function PropagateFailure<U>(): Result<U>
      requires Err?
    {
      Err(error)
    }

    function Extract(): T
      requires Ok?
    {
      value
    }
  }

  /** The field names of a struct, in order. */
  function Names(fs: seq<Field>): seq<string>
  {
    seq(|fs|, i requires 0 <= i < |fs| => fs[i].name)
  }

  /** The position of the first field called `name`, or `|fs|` if none is. */
  function Find(fs: seq<Field>, name: string): (i: nat)
    ensures i <= |fs|
    ensures forall j :: 0 <= j < i ==> fs[j].name != name
    ensures i < |fs| ==> fs[i].name == name
  {
    if |fs| == 0 then 0
    else if fs[0].name == name then 0
    else 1 + Find(fs[1..], name)
  }

  /** Two field lists with the same names in the same order agree on every lookup. */
  lemma {:induction false} FindSameNames(a: seq<Field>, b: seq<Field>)
    requires |a| == |b|
    requires forall i :: 0 <= i < |a| ==> a[i].name == b[i].name
    ensures forall m :: Find(a, m) == Find(b, m)
  {
    if |a| > 0 {
      FindSameNames(a[1..], b[1..]);
    }
  }

  /** Looking a name up after appending one field. */
  lemma {:induction false} FindAppend(fs: seq<Field>, f: Field)
    ensures forall m ::
      Find(fs + [f], m) == (if Find(fs, m) < |fs| then Find(fs, m) else if f.name == m then |fs| else |fs| + 1)
  {
    if |fs| > 0 {
      FindAppend(fs[1..], f);
      assert (fs + [f])[1..] == fs[1..] + [f];
    }
  }

  /** `col.getField(name)`: the value of the first field called `name`. */
  function GetField(v: Value, name: string): (r: Result<Value>)
    ensures r.Ok? <==> v.Null? || (v.Struct? && name in Names(v.fields))
    ensures v.Null? ==> r == Ok(Null)
    ensures r.Ok? && v.Struct? ==>
      exists i :: 0 <= i < |v.fields| && v.fields[i] == Field(name, r.value) && name !in Names(v.fields[..i])
  {
    match v
    case Struct(fs) =>
      var i := Find(fs, name);
      if i < |fs| then
        assert fs[i] == Field(name, fs[i].value);
        assert Names(fs)[i] == name;
        assert name !in Names(fs[..i]);
        Ok(fs[i].value)
      else Err(MissingField(name))
    case Null => Ok(Null)
    case _ => Err(NotAStruct(name))
  }

  /** `col.withField(name, x)`: every field called `name` now holds `x`, in
      place; if there is none, `name` is appended as the last field. */
  function WithField(v: Value, name: string, x: Value): (r: Result<Value>)
    ensures r.Ok? <==> v.Struct? || v.Null?
    ensures v.Null? ==> r == Ok(Null)
    ensures v.Struct? ==> r.Ok? && r.value.Struct?
    ensures v.Struct? && name in Names(v.fields) ==>
      && |r.value.fields| == |v.fields|
      && Names(r.value.fields) == Names(v.fields)
      && (forall i :: 0 <= i < |v.fields| && v.fields[i].name != name ==> r.value.fields[i] == v.fields[i])
      && forall i :: 0 <= i < |v.fields| && v.fields[i].name == name ==> r.value.fields[i] == Field(name, x)
    ensures v.Struct? && name !in Names(v.fields) ==> r.value.fields == v.fields + [Field(name, x)]
    ensures v.Struct? ==> GetField(r.value, name) == Ok(x)
    ensures v.Struct? ==> forall m :: m != name ==> GetField(r.value, m) == GetField(v, m)
  {
    match v
    case Struct(fs) =>
      if name in Names(fs) then
        var rs := seq(|fs|, i requires 0 <= i < |fs| => if fs[i].name == name then Field(name, x) else fs[i]);
        assert forall i :: 0 <= i < |fs| ==> rs[i].name == fs[i].name;
        FindSameNames(fs, rs);
        assert Names(rs) == Names(fs);
        Ok(Struct(rs))
      else
        assert forall j :: 0 <= j < |fs| ==> Names(fs)[j] != name && fs[j].name == Names(fs)[j];
        assert Find(fs, name) == |fs|;
        FindAppend(fs, Field(name, x));
        Ok(Struct(fs + [Field(name, x)]))
    case Null => Ok(Null)
    case _ => Err(NotAStruct(name))
  }

  /** Applies `f` to every element, failing if any element fails. */
  function MapEach(items: seq<Value>, f: Value -> Result<Value>): (r: Result<seq<Value>>)
    ensures r.Ok? <==> forall i :: 0 <= i < |items| ==> f(items[i]).Ok?
    ensures r.Ok? ==> |r.value| == |items| && forall i :: 0 <= i < |items| ==> r.value[i] == f(items[i]).value
  {
    if |items| == 0 then Ok([])
    else
      var head :- f(items[0]);
      var tail :- MapEach(items[1..], f);
      Ok([head] + tail)
  }

  /** `F.transform(col, f)`: a new array of the same length whose element
      `i` is `f` of element `i`. */
  function Transform(v: Value, f: Value -> Result<Value>): (r: Result<Value>)
    ensures r.Ok? <==> v.Null? || (v.Array? && forall i :: 0 <= i < |v.items| ==> f(v.items[i]).Ok?)
    ensures v.Null? ==> r == Ok(Null)
    ensures v.Array? && r.Ok? ==>
      && r.value.Array?
      && |r.value.items| == |v.items|
      && forall i :: 0 <= i < |v.items| ==> r.value.items[i] == f(v.items[i]).value
  {
    match v
    case Array(items) =>
      var mapped :- MapEach(items, f);
      Ok(Array(mapped))
    case Null => Ok(Null)
    case _ => Err(NotAnArray)
  }

  /** `F.coalesce(*vs)` without its widening to a common type: the first
      non-null value, or null. The result is always one of the alternatives
      or null. */
  function Coalesce(vs: seq<Value>): (r: Value)
    ensures r == Null || r in vs
  {
    if |vs| == 0 then Null
    else if vs[0] != Null then vs[0]
    else Coalesce(vs[1..])
  }

  /** Coalesce picks the first non-null value, whatever follows it. */
  lemma {:induction false} CoalesceFirst(vs: seq<Value>, i: nat)
    requires i < |vs| && vs[i] != Null
    requires forall j :: 0 <= j < i ==> vs[j] == Null
    ensures Coalesce(vs) == vs[i]
  {
    if i > 0 {
      CoalesceFirst(vs[1..], i - 1);
    }
  }

  /** Coalesce is null exactly when every value is null. */
  lemma {:induction false} CoalesceNull(vs: seq<Value>)
    ensures Coalesce(vs) == Null <==> forall j :: 0 <= j < |vs| ==> vs[j] == Null
  {
    if |vs| > 0 {
      CoalesceNull(vs[1..]);
      assert forall j :: 1 <= j < |vs| ==> vs[j] == vs[1..][j - 1];
    }
  }

  /** `col.getField(path[0]).getField(path[1])...`: the value at a path. */
  function GetPath(v: Value, path: seq<string>): Result<Value>
    decreases |path|
  {
    if |path| == 0 then Ok(v)
    else
      var sub :- GetField(v, path[0]);
      GetPath(sub, path[1..])
  }

  /** Every path into a null value reads null. */
  lemma {:induction false} NullPath(path: seq<string>)
    ensures GetPath(Null, path) == Ok(Null)
    decreases |path|
  {
    if |path| > 0 {
      NullPath(path[1..]);
    }
  }
}
