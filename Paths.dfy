/** Dotted paths: Python's `str.split(".")` and `".".join(...)`, as used by
    udf.py to peel one field name off the front of a path. */
module Paths {

  /** `s.split(".")`: always at least one segment, none containing a dot;
      `""` splits to `[""]` and `"a..b"` to `["a", "", "b"]`. The first
      segment is a prefix of `s`, and a dot-free `s` is its only segment. */
  function Split(s: string): (segs: seq<string>)
    ensures |segs| >= 1
    ensures forall i :: 0 <= i < |segs| ==> '.' !in segs[i]
    ensures segs[0] <= s
    ensures '.' !in s ==> segs == [s]
    decreases |s|
  {
    if |s| == 0 then [""]
    else
      var rest := Split(s[1..]);
      assert s == [s[0]] + s[1..];
      if s[0] == '.' then [""] + rest
      else [[s[0]] + rest[0]] + rest[1..]
  }

  /** `".".join(segs)`: starts with the first segment, followed by a dot
      when more segments follow. */
  function Join(segs: seq<string>): (s: string)
    ensures |segs| > 0 ==> segs[0] <= s
    ensures |segs| > 1 ==> segs[0] + "." <= s
  {
    if |segs| == 0 then ""
    else if |segs| == 1 then segs[0]
    else segs[0] + "." + Join(segs[1..])
  }

  /** The first segment of a path (`remaining.split(".")[0]`): a dot-free
      prefix of the path, and the whole path when it holds no dot. */
  function Head(s: string): (h: string)
    ensures '.' !in h && h <= s
    ensures '.' !in s ==> h == s
  {
    Split(s)[0]
  }

  /** The path after its first segment (`".".join(remaining.split(".")[1:])`):
      empty for a dot-free path, and otherwise what follows the head and the
      first dot. */
  function Tail(s: string): (t: string)
    ensures '.' !in s ==> t == ""
    ensures '.' in s ==> s == Head(s) + "." + t
  {
    JoinSplit(s);
    Join(Split(s)[1..])
  }

  /** Every segment is dot-free, so it survives a join followed by a split. */
  predicate DotFree(segs: seq<string>)
  {
    forall i :: 0 <= i < |segs| ==> '.' !in segs[i]
  }

  /** Every segment names a field: it is non-empty and dot-free. */
  predicate Addressable(segs: seq<string>)
  {
    DotFree(segs) && forall i :: 0 <= i < |segs| ==> |segs[i]| > 0
  }

  /** Joining the segments of a split gives the string back. */
  lemma {:induction false} JoinSplit(s: string)
    ensures Join(Split(s)) == s
    decreases |s|
  {
    if |s| > 0 {
      var rest := Split(s[1..]);
      JoinSplit(s[1..]);
      if s[0] == '.' {
        assert Split(s) == [""] + rest;
        assert Join(Split(s)) == "" + "." + Join(rest);
        assert s == "." + s[1..];
      } else {
        var segs := [[s[0]] + rest[0]] + rest[1..];
        assert Split(s) == segs;
        if |rest| == 1 {
          assert Join(rest) == rest[0];
          assert Join(segs) == [s[0]] + rest[0];
        } else {
          assert segs[1..] == rest[1..];
          assert Join(rest) == rest[0] + "." + Join(rest[1..]);
          assert Join(segs) == ([s[0]] + rest[0]) + "." + Join(rest[1..]);
        }
        assert s == [s[0]] + s[1..];
      }
    }
  }

  /** Splitting `a + "." + t` for a dot-free `a` peels off exactly `a`. */
  lemma {:induction false} SplitPrefix(a: string, t: string)
    requires '.' !in a
    ensures Split(a + "." + t) == [a] + Split(t)
    decreases |a|
  {
    var s := a + "." + t;
    if |a| == 0 {
      assert s[0] == '.' && s[1..] == t;
    } else {
      assert s[0] == a[0];
      assert s[1..] == a[1..] + "." + t;
      SplitPrefix(a[1..], t);
      assert [a[0]] + a[1..] == a;
    }
  }

  /** Splitting a join of dot-free segments gives the segments back. */
  lemma {:induction false} SplitJoin(segs: seq<string>)
    requires |segs| >= 1 && DotFree(segs)
    ensures Split(Join(segs)) == segs
    decreases |segs|
  {
    if |segs| > 1 {
      SplitJoin(segs[1..]);
      SplitPrefix(segs[0], Join(segs[1..]));
    }
  }

  /** The shape of a split: a path has more than one segment exactly when it
      holds a dot, and it is then its head, a dot and its tail, so the tail
      is strictly shorter; a one-segment path is its own head. */
  lemma SplitShape(s: string)
    ensures |Split(s)| > 1 <==> '.' in s
    ensures |Split(s)| == 1 ==> Head(s) == s && Tail(s) == ""
    ensures |Split(s)| > 1 ==> s == Head(s) + "." + Tail(s) && |Tail(s)| < |s|
  {
    JoinSplit(s);
    var segs := Split(s);
    if |segs| > 1 {
      assert s == segs[0] + "." + Join(segs[1..]);
      assert s[|segs[0]|] == '.';
    }
  }

  /** The tail of a path splits into the remaining segments. */
  lemma SplitTail(s: string)
    requires |Split(s)| > 1
    ensures Split(Tail(s)) == Split(s)[1..]
  {
    SplitJoin(Split(s)[1..]);
  }
}
