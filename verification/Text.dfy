/**
 * Go strings as byte strings, and the handful of `strings` package
 * operations the handlers use: TrimSpace, HasPrefix/HasSuffix,
 * TrimPrefix/TrimSuffix, Split and Join.
 *
 * A `Byte` is a character no larger than U+00FF, so that a Go string of
 * bytes is a Dafny `seq<Byte>` and `len(s)` is `|s|`.
 */
module Text {

  type Byte = c: char | c <= '\U{FF}'

  type Text = seq<Byte>

  /** The ASCII white-space bytes removed by strings.TrimSpace. */
  predicate IsSpace(b: Byte) {
    b == ' ' || b == '\t' || b == '\n' || b == '\U{0B}' || b == '\U{0C}' || b == '\r'
  }

  predicate AllSpace(s: Text) {
    forall i :: 0 <= i < |s| ==> IsSpace(s[i])
  }

  /**
   * strings.TrimSpace, restricted to ASCII white space: drops white space
   * from the front, then from the back.
   */
  function Trim(s: Text): (r: Text)
    ensures |r| <= |s|
    ensures r == [] <==> AllSpace(s)
    ensures r != [] ==> !IsSpace(r[0]) && !IsSpace(r[|r| - 1])
    decreases |s|
  {
    if s != [] && IsSpace(s[0]) then
      var r := Trim(s[1..]);
      assert AllSpace(s[1..]) ==> AllSpace(s);
      r
    else if s != [] && IsSpace(s[|s| - 1]) then
      var r := Trim(s[..|s| - 1]);
      assert AllSpace(s[..|s| - 1]) ==> AllSpace(s);
      r
    else s
  }

  /** `r` is `s[i..j]`, and only white space lies outside that slice. */
  predicate SliceBetweenSpace(s: Text, r: Text, i: int, j: int) {
    0 <= i <= j <= |s| && r == s[i..j] && AllSpace(s[..i]) && AllSpace(s[j..])
  }

  /**
   * Trimming keeps a slice of the input and removes only white space
   * around it; with Trim's own contract (the slice neither starts nor ends
   * with white space) this fixes the result.
   */
  lemma {:induction false} TrimInfix(s: Text)
    ensures exists i, j :: SliceBetweenSpace(s, Trim(s), i, j)
    decreases |s|
  {
    if s != [] && IsSpace(s[0]) {
      TrimInfix(s[1..]);
      var i, j :| SliceBetweenSpace(s[1..], Trim(s[1..]), i, j);
      SliceAfterSpace(s, Trim(s), i, j);
    } else if s != [] && IsSpace(s[|s| - 1]) {
      TrimInfix(s[..|s| - 1]);
      var i, j :| SliceBetweenSpace(s[..|s| - 1], Trim(s[..|s| - 1]), i, j);
      SliceBeforeSpace(s, Trim(s), i, j);
    } else {
      assert SliceBetweenSpace(s, Trim(s), 0, |s|);
    }
  }

  lemma SliceAfterSpace(s: Text, r: Text, i: int, j: int)
    requires s != [] && IsSpace(s[0]) && SliceBetweenSpace(s[1..], r, i, j)
    ensures SliceBetweenSpace(s, r, i + 1, j + 1)
  {
    var t := s[1..];
    assert t[i..j] == s[i + 1..j + 1];
    assert t[j..] == s[j + 1..];
    assert s[..i + 1] == [s[0]] + t[..i];
    SpaceCons(s[0], t[..i]);
  }

  lemma SliceBeforeSpace(s: Text, r: Text, i: int, j: int)
    requires s != [] && IsSpace(s[|s| - 1]) && SliceBetweenSpace(s[..|s| - 1], r, i, j)
    ensures SliceBetweenSpace(s, r, i, j)
  {
    var t := s[..|s| - 1];
    assert t[i..j] == s[i..j];
    assert t[..i] == s[..i];
    assert s[j..] == t[j..] + [s[|s| - 1]];
    SpaceSnoc(t[j..], s[|s| - 1]);
  }

  lemma SpaceCons(b: Byte, t: Text)
    requires IsSpace(b) && AllSpace(t)
    ensures AllSpace([b] + t)
  {
    forall k | 0 <= k < |[b] + t| ensures IsSpace(([b] + t)[k]) {
      if k > 0 { assert ([b] + t)[k] == t[k - 1]; }
    }
  }

  lemma SpaceSnoc(t: Text, b: Byte)
    requires AllSpace(t) && IsSpace(b)
    ensures AllSpace(t + [b])
  {
    forall k | 0 <= k < |t + [b]| ensures IsSpace((t + [b])[k]) {
      if k < |t| { assert (t + [b])[k] == t[k]; }
    }
  }

  /** A trimmed text has nothing left to trim. */
  lemma {:induction false} TrimIdempotent(s: Text)
    ensures Trim(Trim(s)) == Trim(s)
  {
    var t := Trim(s);
    assert t == [] || (!IsSpace(t[0]) && !IsSpace(t[|t| - 1]));
  }

  predicate HasPrefix(s: Text, p: Text) {
    |p| <= |s| && s[..|p|] == p
  }

  predicate HasSuffix(s: Text, p: Text) {
    |p| <= |s| && s[|s| - |p|..] == p
  }

  /** strings.TrimPrefix: removes `p` once if `s` starts with it. */
  function TrimPrefix(s: Text, p: Text): (r: Text)
    ensures HasPrefix(s, p) ==> p + r == s
    ensures !HasPrefix(s, p) ==> r == s
  {
    if HasPrefix(s, p) then s[|p|..] else s
  }

  /** strings.TrimSuffix: removes `p` once if `s` ends with it. */
  function TrimSuffix(s: Text, p: Text): (r: Text)
    ensures HasSuffix(s, p) ==> r + p == s
    ensures !HasSuffix(s, p) ==> r == s
  {
    if HasSuffix(s, p) then s[..|s| - |p|] else s
  }

  /** Number of occurrences of byte `b` in `s`. */
  function Count(s: Text, b: Byte): nat {
    multiset(s)[b]
  }

  /** strings.Join with a one-byte separator. */
  function Join(parts: seq<Text>, sep: Byte): Text {
    if |parts| == 0 then []
    else if |parts| == 1 then parts[0]
    else parts[0] + [sep] + Join(parts[1..], sep)
  }

  /** strings.Split with a one-byte separator: k separators give k + 1 parts. */
  function Split(s: Text, sep: Byte): (parts: seq<Text>)
    ensures |parts| == Count(s, sep) + 1
  {
    if s == [] then [[]]
    else
      assert s == [s[0]] + s[1..];
      var rest := Split(s[1..], sep);
      if s[0] == sep then [[]] + rest
      else [[s[0]] + rest[0]] + rest[1..]
  }

  predicate NoSeparator(parts: seq<Text>, sep: Byte) {
    forall i :: 0 <= i < |parts| ==> sep !in parts[i]
  }

  lemma {:induction false} SplitNoSeparator(s: Text, sep: Byte)
    requires sep !in s
    ensures Split(s, sep) == [s]
    decreases |s|
  {
    if s != [] {
      SplitNoSeparator(s[1..], sep);
      assert [s[0]] + s[1..] == s;
    }
  }

  lemma {:induction false} SplitAfterSeparator(a: Text, sep: Byte, b: Text)
    requires sep !in a
    ensures Split(a + [sep] + b, sep) == [a] + Split(b, sep)
    decreases |a|
  {
    var s := a + [sep] + b;
    if a == [] {
      assert s == [sep] + b;
      assert s[1..] == b;
    } else {
      assert s[1..] == a[1..] + [sep] + b;
      SplitAfterSeparator(a[1..], sep, b);
      assert [a[0]] + a[1..] == a;
    }
  }

  /** Splitting a join on its separator gives back the parts. */
  lemma {:induction false} SplitJoin(parts: seq<Text>, sep: Byte)
    requires |parts| >= 1
    requires NoSeparator(parts, sep)
    ensures Split(Join(parts, sep), sep) == parts
    decreases |parts|
  {
    if |parts| == 1 {
      SplitNoSeparator(parts[0], sep);
    } else {
      SplitJoin(parts[1..], sep);
      SplitAfterSeparator(parts[0], sep, Join(parts[1..], sep));
      assert [parts[0]] + parts[1..] == parts;
    }
  }

  /** A join of k parts, none holding the separator, holds k - 1 separators. */
  lemma {:induction false} JoinCount(parts: seq<Text>, sep: Byte)
    requires |parts| >= 1
    requires NoSeparator(parts, sep)
    ensures Count(Join(parts, sep), sep) == |parts| - 1
    decreases |parts|
  {
    if |parts| > 1 {
      JoinCount(parts[1..], sep);
      assert multiset(parts[0] + [sep] + Join(parts[1..], sep))
        == multiset(parts[0]) + multiset([sep]) + multiset(Join(parts[1..], sep));
    } else {
      assert multiset(parts[0])[sep] == 0;
    }
  }

  /** Joining one more part appends a separator and that part. */
  lemma {:induction false} JoinSnoc(parts: seq<Text>, p: Text, sep: Byte)
    requires |parts| >= 1
    ensures Join(parts + [p], sep) == Join(parts, sep) + [sep] + p
    decreases |parts|
  {
    if |parts| == 1 {
      assert (parts + [p])[1..] == [p];
    } else {
      assert (parts + [p])[1..] == parts[1..] + [p];
      JoinSnoc(parts[1..], p, sep);
    }
  }
}
