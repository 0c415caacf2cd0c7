/** Slash-separated repository paths as plain strings: splitting a path into
    its segments (QString::split on "/", keeping empty parts), joining segments
    back, and the raw string-prefix test QString::startsWith. */
module PathText {

  /** A path is a prefix of another when it starts it, character by character.
      Any string starts with the empty string. */
  predicate StartsWith(s: string, prefix: string)
  {
    |prefix| <= |s| && s[..|prefix|] == prefix
  }

  /** Sequence prefix, used for segment lists. */
  predicate IsPrefix<T(==)>(x: seq<T>, y: seq<T>)
  {
    |x| <= |y| && y[..|x|] == x
  }

  /** The segments of `s` between slashes, empty segments included, so that
      "" gives [""], "a/" gives ["a", ""] and "/a" gives ["", "a"]. */
  function Split(s: string): (parts: seq<string>)
    ensures |parts| >= 1
    ensures forall k :: 0 <= k < |parts| ==> '/' !in parts[k]
    decreases |s|
  {
    if s == [] then [[]]
    else
      var rest := Split(s[1..]);
      if s[0] == '/' then [[]] + rest
      else [[s[0]] + rest[0]] + rest[1..]
  }

  /** The segments put back together with a slash between neighbours. */
  function Join(parts: seq<string>): (r: string)
    requires |parts| >= 1
    decreases |parts|
  {
    if |parts| == 1 then parts[0] else parts[0] + "/" + Join(parts[1..])
  }

  /** Splitting and re-joining gives the path back. */
  lemma {:induction false} JoinSplit(s: string)
    ensures Join(Split(s)) == s
    decreases |s|
  {
    if s != [] {
      var rest := Split(s[1..]);
      JoinSplit(s[1..]);
      if s[0] == '/' {
        assert Split(s) == [[]] + rest;
        assert Join(Split(s)) == [] + "/" + Join(rest);
      } else if |rest| == 1 {
        assert Split(s) == [[s[0]] + rest[0]];
      } else {
        var parts := Split(s);
        assert parts == [[s[0]] + rest[0]] + rest[1..];
        assert parts[1..] == rest[1..];
        assert Join(rest) == rest[0] + "/" + Join(rest[1..]);
        assert Join(parts) == ([s[0]] + rest[0]) + "/" + Join(rest[1..]);
      }
    }
  }

  /** Splitting a string whose first part `x` holds no slash glues `x` onto
      the first segment of the rest. */
  lemma {:induction false} SplitAfterSegment(x: string, t: string)
    requires '/' !in x
    ensures Split(x + t) == [x + Split(t)[0]] + Split(t)[1..]
    decreases |x|
  {
    if x == [] {
      var parts := Split(t);
      assert x + t == t;
      assert x + parts[0] == parts[0];
      assert parts == [parts[0]] + parts[1..];
    } else {
      assert (x + t)[1..] == x[1..] + t;
      SplitAfterSegment(x[1..], t);
      assert [x[0]] + (x[1..] + Split(t)[0]) == x + Split(t)[0];
    }
  }

  /** Joining segments that hold no slash and splitting again gives the
      segments back: the two operations are inverse on such lists. */
  lemma {:induction false} SplitJoin(parts: seq<string>)
    requires |parts| >= 1
    requires forall k :: 0 <= k < |parts| ==> '/' !in parts[k]
    ensures Split(Join(parts)) == parts
    decreases |parts|
  {
    if |parts| == 1 {
      SplitAfterSegment(parts[0], "");
      assert parts[0] + "" == parts[0];
    } else {
      var x, t := parts[0], Join(parts[1..]);
      SplitJoin(parts[1..]);
      assert x + "/" + t == x + ("/" + t);
      SplitAfterSegment(x, "/" + t);
      assert ("/" + t)[1..] == t;
      assert Split("/" + t) == [[]] + Split(t);
      assert x + [] == x;
    }
  }

  /** Adding a last segment adds a slash and that segment. */
  lemma {:induction false} JoinSnoc(parts: seq<string>, x: string)
    requires |parts| >= 1
    ensures Join(parts + [x]) == Join(parts) + "/" + x
    decreases |parts|
  {
    if |parts| > 1 {
      assert (parts + [x])[1..] == parts[1..] + [x];
      JoinSnoc(parts[1..], x);
    }
  }

  /** The path of the first `j` segments is a string prefix of the whole path. */
  lemma {:induction false} JoinPrefix(parts: seq<string>, j: nat)
    requires 1 <= j <= |parts|
    ensures StartsWith(Join(parts), Join(parts[..j]))
    decreases |parts|
  {
    if j == |parts| {
      assert parts[..j] == parts;
    } else if j == 1 {
      assert Join(parts) == parts[0] + ("/" + Join(parts[1..]));
    } else {
      JoinPrefix(parts[1..], j - 1);
      assert parts[..j][1..] == parts[1..][..j - 1];
      var head := parts[0] + "/";
      assert Join(parts) == head + Join(parts[1..]);
      assert Join(parts[..j]) == head + Join(parts[1..][..j - 1]);
    }
  }
}
