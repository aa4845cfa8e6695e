/** The few string operations the catalogue's value rules use: ASCII
    lower-casing (the `Lower` database function), `", ".join(...)` with its
    inverse, and lexicographic code-point order on strings (the order a
    binary collation sorts by). */
module Text {
  import opened Wrappers

  // ---------------------------------------------------------------------
  // Lower-casing

  function LowerChar(c: char): char {
    if 'A' <= c <= 'Z' then (c as int + 32) as char else c
  }

  function Lower(s: string): (r: string) {
    seq(|s|, i requires 0 <= i < |s| => LowerChar(s[i]))
  }

  /** Lower-casing a lower-cased string changes nothing, so comparing
      `Lower` images is an equivalence that a second normalisation keeps. */
  lemma LowerIdempotent(s: string)
    ensures Lower(Lower(s)) == Lower(s)
  {
  }

  // ---------------------------------------------------------------------
  // The list separator ", " and joining with it

  const Separator: string := ", "

  /** A ", " begins at index `k` of `s`. */
  predicate SeparatorAt(s: string, k: int) {
    0 <= k && k + 1 < |s| && s[k] == ',' && s[k + 1] == ' '
  }

  /** `s` has no ", " in it (a single ',' or ' ' is fine). */
  predicate NoSeparator(s: string) {
    forall k :: 0 <= k < |s| ==> !SeparatorAt(s, k)
  }

  /** Index of the first ", " in `s`, or `|s|` when there is none. */
  function FindSeparator(s: string): (k: nat)
    ensures k <= |s|
    ensures k < |s| ==> SeparatorAt(s, k)
    ensures forall i :: 0 <= i < k ==> !SeparatorAt(s, i)
    ensures k == |s| ==> NoSeparator(s)
    decreases |s|
  {
    if |s| < 2 then |s|
    else if s[0] == ',' && s[1] == ' ' then 0
    else
      var k' := FindSeparator(s[1..]);
      assert forall i :: 0 <= i < k' + 1 && SeparatorAt(s, i) ==> i == 0 || SeparatorAt(s[1..], i - 1);
      assert k' == |s| - 1 ==> forall i :: 0 <= i < |s| && SeparatorAt(s, i) ==> i == 0 || SeparatorAt(s[1..], i - 1);
      if k' == |s| - 1 then |s| else 1 + k'
  }

  /** `s` cut at its first ", ": the text before it and the text after it. */
  function CutAtSeparator(s: string): (r: Option<(string, string)>)
    ensures r.None? <==> NoSeparator(s)
    ensures r.Some? ==> s == r.value.0 + Separator + r.value.1 && NoSeparator(r.value.0)
  {
    var k := FindSeparator(s);
    if k == |s| then None
    else
      assert s == s[..k] + Separator + s[k + 2..];
      assert forall i :: 0 <= i < k && SeparatorAt(s[..k], i) ==> SeparatorAt(s, i);
      Some((s[..k], s[k + 2..]))
  }

  /** Python's `sep.join(parts)`. */
  function Join(sep: string, parts: seq<string>): string
    decreases |parts|
  {
    if |parts| == 0 then ""
    else if |parts| == 1 then parts[0]
    else parts[0] + sep + Join(sep, parts[1..])
  }

  /** Reads a ", "-separated list back into its items. */
  function Split(s: string): (parts: seq<string>)
    ensures |parts| >= 1
    ensures forall i :: 0 <= i < |parts| ==> NoSeparator(parts[i])
    decreases |s|
  {
    match CutAtSeparator(s)
    case None => [s]
    case Some((head, tail)) => [head] + Split(tail)
  }

  /** The first ", " of `p + ", " + t` is the one after `p` when `p` has
      none of its own: a trailing ',' in `p` is followed by ',' and cannot
      start a separator. */
  lemma {:induction false} CutAfterPrefix(p: string, t: string)
    requires NoSeparator(p)
    ensures CutAtSeparator(p + Separator + t) == Some((p, t))
  {
    var s := p + Separator + t;
    var k := FindSeparator(s);
    assert SeparatorAt(s, |p|);
    assert forall i :: 0 <= i < |p| - 1 && SeparatorAt(s, i) ==> SeparatorAt(p, i);
    assert k == |p|;
    assert s[..k] == p;
    assert s[k + 2..] == t;
  }

  /** Joined items read back exactly when none of them contains ", ": the
      joined text then names the items, in order. */
  lemma {:induction false} SplitJoin(parts: seq<string>)
    requires |parts| >= 1
    ensures Split(Join(Separator, parts)) == parts <==>
      forall i :: 0 <= i < |parts| ==> NoSeparator(parts[i])
  {
    if !(forall i :: 0 <= i < |parts| ==> NoSeparator(parts[i])) {
    } else if |parts| == 1 {
      assert Join(Separator, parts) == parts[0];
    } else {
      var rest := Join(Separator, parts[1..]);
      assert Join(Separator, parts) == parts[0] + Separator + rest;
      CutAfterPrefix(parts[0], rest);
      SplitJoin(parts[1..]);
      assert Split(parts[0] + Separator + rest) == [parts[0]] + Split(rest);
      assert parts == [parts[0]] + parts[1..];
    }
  }

  // ---------------------------------------------------------------------
  // String order under a binary collation: lexicographic by code point,
  // a proper prefix first

  predicate StrLess(a: string, b: string)
    decreases |a|
  {
    |b| > 0 && (|a| == 0 || a[0] < b[0] || (a[0] == b[0] && StrLess(a[1..], b[1..])))
  }

  lemma {:induction false} StrLessIrreflexive(a: string)
    ensures !StrLess(a, a)
    decreases |a|
  {
    if |a| > 0 { StrLessIrreflexive(a[1..]); }
  }

  lemma {:induction false} StrLessTransitive(a: string, b: string, c: string)
    requires StrLess(a, b) && StrLess(b, c)
    ensures StrLess(a, c)
    decreases |a|
  {
    if |a| > 0 && a[0] == b[0] && b[0] == c[0] {
      StrLessTransitive(a[1..], b[1..], c[1..]);
    }
  }

  /** Any two different strings are ordered one way or the other. */
  lemma {:induction false} StrLessTotal(a: string, b: string)
    requires a != b
    ensures StrLess(a, b) || StrLess(b, a)
    decreases |a|
  {
    if |a| > 0 && |b| > 0 && a[0] == b[0] {
      assert a == [a[0]] + a[1..] && b == [b[0]] + b[1..];
      StrLessTotal(a[1..], b[1..]);
    }
  }
}
