# spark-struct-update, modelled in Dafny

`udf.py` repairs schema drift in nested records. A field that a schema
crawler once saw as one primitive may later appear as a struct holding the
same value under two alternative types. `update_struct` rebuilds a nested
struct so that only the location named by a dotted path changes. It can
broadcast the change over an array met on the way (`array_path`).
`group_to_primitive` is the leaf that repairs the drift: it coalesces the
alternative fields in order and casts the result to the first type.
`struct_repl` runs `group_to_primitive` inside each array element.

The model is pure, like the source:

- `Column.dfy` is the part of the Spark column API the code uses, over an
  explicit `Value` (`Struct` with ordered named fields, `Array`, `Prim`,
  `Null`):
  - `GetField` is `getField`, `WithField` is `withField`, `Transform` is
    `F.transform`, `Coalesce` is `F.coalesce` without its widening of
    the alternatives to a common type.
  - An ill-typed expression is a `Result` error, never a precondition.
    The errors are a missing field, a field access on a non-struct, a
    transform over a non-array, and `types[0]` on an empty list.
  - Null propagates as it does in Spark at run time: a null struct reads
    and rebuilds to null, and a null array maps to null.
  - `withField` replaces every field of that name in place, or appends the
    field when there is none.
- `Paths.dfy` is Python's `str.split(".")` and `".".join`, with
  `Head`/`Tail` for `split(".")[0]` and `".".join(split(".")[1:])`.
- `Udf.dfy` holds `update_struct`, its array handling, `struct_repl` and
  `group_to_primitive`:
  - The leaf is a function parameter `(Value, string, A) -> Result<Value>`.
  - `*args` is one configuration value of type `A`.
  - `cast` is a parameter inside `DriftArgs`, because its semantics belong
    to the engine.
  - `array_path` is an `Option<string>`, so that `None` and `""` stay
    distinct.
- `UdfProperties.dfy` defines `Descend`, a reference rebuild along an
  explicit list of field names with any transform at the end. It proves
  what `Descend` preserves and that `UpdateStruct` is `Descend` for each
  kind of path.
- `Scenarios.dfy` works three end-to-end examples: a nested update, a drift
  repair and an array broadcast.

The model follows the code in four places where a reader might expect otherwise:

- `"".split(".")` is `[""]`, not an empty list. Without an array path, an
  empty path therefore applies the leaf to field `""` of the current value,
  not to the value itself. With any array path that is not `None`, even
  `""`, an empty path runs array handling on the current value, and the leaf
  runs on the array's elements (`EmptyHeadStops`).
- An empty segment in a path is not rejected. Descent stops at that segment
  and ignores the rest of the path (`EmptySegmentStops`).
- The array path names its field relative to the value reached after the
  extra hop into the last named field. Path `"items"` with array path
  `"items.x"` on `{items: [...]}` therefore fails (`ArrayPathIsBelowTheHop`).
  The code-consistent form of that example is `ArrayBroadcast`.
- `struct_repl` with a one-segment `remaining` passes the empty path to
  `update_struct`. So `group_to_primitive` runs on field `""` of the named
  field, not on the named field itself (`StructReplSingle`). A drift struct
  inside array elements can therefore be repaired only at depth two or
  more below the element. With `remaining` `"v"` on an element
  `{v: {type_1: x, type_2: null}}`, the repair fails
  (`ShallowStructReplFails`).

## Model

| member | source | states |
|---|---|---|
| Paths.Split | udf.py:98-99 | a split always has at least one segment and no segment contains a dot |
| Paths.Join | udf.py:102 | `".".join` starts with the first segment, followed by a dot when more segments follow; `JoinSplit` and `SplitJoin` state the round trips with `Split` |
| Paths.Head | udf.py:98 | `split(".")[0]` is a dot-free prefix of the path, and the whole path when it holds no dot |
| Paths.Tail | udf.py:99-102 | `".".join(split(".")[1:])` is empty for a dot-free path; otherwise the path is the head, a dot and the tail |
| Paths.JoinSplit | udf.py:98-102 | joining the segments of a split gives the original path back |
| Paths.SplitJoin | udf.py:99-102 | splitting a join of one or more dot-free segments gives those segments back |
| Paths.SplitShape | udf.py:98-102 | a path has more than one segment exactly when it contains a dot; it is then head + "." + tail, so the tail passed to the recursive call is strictly shorter; a one-segment path is its own head with an empty tail |
| Paths.SplitTail | udf.py:99-102 | the tail passed to the recursive call splits into exactly the remaining segments |
| Column.GetField | udf.py:106 | `getField` succeeds exactly on a null value or a struct that has the name; on null it is null; on a struct it is the value of the first field with that name |
| Column.WithField | udf.py:142-145 | `withField` fails on a non-struct and keeps null as null; on a struct with the name it keeps length and name order, every field of that name now holds the new value, and every other field is left alone; without the name it appends the field; afterwards the name reads the new value and every other name reads what it read before |
| Column.MapEach | udf.py:135-138 | mapping succeeds exactly when every element succeeds; the result has the same length and element i is f of element i |
| Column.Transform | udf.py:135-138 | `F.transform` succeeds exactly on null or on an array whose elements all succeed; null stays null; an array keeps its length and order and element i is f of element i alone |
| Column.Coalesce | udf.py:67 | `F.coalesce` returns null or one of its alternatives; which one is stated by `CoalesceFirst` and `CoalesceNull` |
| Column.CoalesceFirst | udf.py:67 | coalesce returns the first non-null value in list order, whatever follows it |
| Column.CoalesceNull | udf.py:67 | coalesce is null exactly when every value is null |
| Udf.Truthy | udf.py:115 | Python truthiness of `array_path`: it is false exactly for `None` and for `""` |
| Udf.UpdateStruct | udf.py:70-145 | on a struct, a successful `update_struct` keeps the struct's field names and their order on every branch |
| Udf.ArrayStep | udf.py:129-139 | array handling keeps the struct's field names and order and every field except the head of `array_path` |
| Udf.StructRepl | udf.py:6-37 | `struct_repl` keeps the struct's field names and order and changes no field other than the head of `remaining` |
| Udf.GetFields | udf.py:67 | the list comprehension succeeds exactly when every named field can be read, and position j holds field `types[j]` |
| Udf.GroupToPrimitive | udf.py:40-67 | `group_to_primitive` succeeds exactly when there is at least one type and every named field can be read; with no type it fails with the `types[0]` error |
| UdfProperties.DescendKeepsSiblings | udf.py:101-113 | any path that leaves the rebuilt path at some level reads the same value before and after the rebuild |
| UdfProperties.DescendReachesTarget | udf.py:101-113 | when no struct on the path is null, the value now at the path is the transform of the old value there |
| UdfProperties.DescendKeepsLayout | udf.py:101-113 | every struct on the rebuilt path keeps its field names and their order, and a null one stays null |
| UdfProperties.DescendMissingField | udf.py:101-113 | a field missing from any struct on the path makes the rebuild fail; the failure is propagated, not repaired |
| UdfProperties.DescendSucceeds | udf.py:101-113 | when every struct on the path holds the next field and the transform succeeds at the end, the rebuild succeeds |
| UdfProperties.PlainPathUpdate | udf.py:98-145 | with no array path and segments s1..sn all non-empty, `update_struct` is the reference rebuild of s1..sn with the leaf applied to the old value and given `sn` as `remaining` |
| UdfProperties.ArrayPathUpdate | udf.py:115-139 | with a non-empty array path, the named path is descended in full first, then one extra hop into the last named field, and array handling runs only there |
| UdfProperties.EmptyArrayPathUpdate | udf.py:115-139 | an array path of `""` counts as absent for the extra hop (line 115) and as present for array handling (line 129): the last named field is not entered, and array handling runs on field `""` of its parent struct |
| UdfProperties.EmptyHeadStops | udf.py:127-145 | an empty first segment (the path `""` or one that starts with a dot) stops descent and ignores the rest of the path; with an array path, array handling runs on the current value; otherwise the leaf is applied to field `""` with `remaining` set to `""` |
| UdfProperties.EmptySegmentStops | udf.py:98-113 | descent stops at the first empty segment anywhere in the path; the named prefix is rebuilt and the rest is ignored, whatever the array path |
| UdfProperties.UpdateStructTarget | udf.py:98-145 | with no array path and no null struct on the way, the value at s1..sn becomes `struct_func(old, sn, args)` |
| UdfProperties.UpdateStructSiblings | udf.py:101-113 | with no array path, every value off the addressed path reads the same after `update_struct` as before |
| UdfProperties.Broadcast | udf.py:129-139 | array handling replaces the array in field `Head(array_path)` by one of the same length and order; element i is the leaf applied to element i alone with `Tail(array_path)` as `remaining`; it fails exactly when the leaf fails on some element, so an empty array succeeds for any leaf (see "## Left out") |
| UdfProperties.StructReplPath | udf.py:24-37 | `struct_repl` along h.t1..tn is the plain rebuild of that path with `group_to_primitive` at the end, given `tn`, and never with an array path |
| UdfProperties.StructReplSingle | udf.py:24-37 | `struct_repl` with a one-segment `remaining` h is the rebuild of h and then field `""`, with `group_to_primitive` given `""`: the repair runs one level below h |
| UdfProperties.CoalescePriority | udf.py:57-67 | the first non-null alternative in list order is the one cast, and it is cast to the first (canonical) type, whatever `remaining` is |
| UdfProperties.CoalesceAllNull | udf.py:57-67 | when every alternative is null and `cast` keeps null, the result is null |
| UdfProperties.FramesBound | udf.py:98-126 | `update_struct` opens at most one frame per path segment, plus one for the extra hop when the array path is truthy; it opens exactly that many when every segment is non-empty; the count is a hand-written mirror of `UpdateStruct`'s branch conditions (see "## Left out") |
| Scenarios.NestedIncrement | udf.py:98-145 | `{a: {b: {c: 1, d: 2}}}` along `"a.b.c"` with an increment leaf gives `{a: {b: {c: 2, d: 2}}}` |
| Scenarios.DriftRepair | udf.py:40-67 | `{value: {type_1: x, type_2: null}}` along `value` with `group_to_primitive` gives `{value: cast(type_1, x)}` |
| Scenarios.DriftRepairFirst | udf.py:67 | with `type_1` non-null and `type_2` null, the `type_1` value is the one cast to `type_1` |
| Scenarios.DriftRepairSecond | udf.py:67 | with `type_1` null, the `type_2` value is the one cast, still to `type_1` |
| Scenarios.ShallowStructReplFails | udf.py:24-37 | `struct_repl` with `remaining` `v` on `{v: {type_1: x, type_2: null}}` fails, because the drift struct has no field `""` |
| Scenarios.BroadcastItems | udf.py:129-139 | array handling with `items.x` negates `x` in each element of `items`, keeping the order |
| Scenarios.ArrayBroadcast | udf.py:115-139 | `{r: {items: [{x: n1}, {x: n2}]}}` along `r` with array path `items.x` gives `{r: {items: [{x: -n1}, {x: -n2}]}}` |
| Scenarios.ArrayPathIsBelowTheHop | udf.py:115-136 | path `items` with array path `items.x` on `{items: [...]}` fails, because the hop enters the array first |

## Left out

- Spark's expression building is not modelled: lazy plans, Catalyst
  analysis and the `F.lit` wrapper around a column, which changes nothing
  here. `getField`, `withField`, `transform` and `coalesce` act directly on
  values.
- `cast` to a type name is an engine conversion whose semantics are not
  available. It is a function parameter. Only `CoalesceAllNull` assumes
  that it maps null to null.
- Spark's `getField` on an array of structs extracts the field from every
  element. The model treats it as an error on a non-struct.
- Spark resolves field names case-insensitively by default, and it reports
  an ambiguous name when a struct has two fields of that name. The model
  matches names exactly and reads the first of them.
- The model has no schema, and Spark's analysis checks every expression
  against one:
  - A null value reads any field name as null. Spark checks the name
    against the struct's type.
  - `Transform` over an empty array succeeds for any leaf, even one that
    fails on every element. `UdfProperties.Broadcast` states the same.
    Spark checks the leaf against the element type even when the array is
    empty.
- `**kwargs` are dropped, and `*args` are one fixed configuration value.
- Per-row parallel execution by the engine is left out. Every call is
  independent.
- UdfProperties.UpdateStructTarget: requires that no struct on the path is
  null. If one is null, the levels above it are still rebuilt. That struct
  stays null, as in Spark (`DescendKeepsLayout`), so the leaf's result is
  not visible below it.
- Udf.GroupToPrimitive: "succeeds exactly when every named field can be
  read" holds in the model, where `Coalesce` and `cast` are total. In Spark,
  `coalesce` fails at analysis when the alternatives have no common type
  (for example `boolean` with `string`). `cast` can also fail: an
  incompatible type is rejected at analysis, and ANSI mode raises at run
  time.
- UdfProperties.FramesBound: `Frames` restates `UpdateStruct`'s branch
  conditions by hand. No proof ties it to `UpdateStruct`, so the bound is
  about that mirror, not about an instrumented `UpdateStruct`.
