/**
 * String operations the article transformation relies on: JavaScript's
 * global and first-occurrence `replace` for literal patterns, `join`,
 * ASCII lower-casing and the concatenation of an ordered list of pieces.
 */
module Strings {
  import opened Wrappers

  /** `p` occurs in `s` starting at index `i`. */
  predicate OccursAt(s: string, p: string, i: nat) {
    i + |p| <= |s| && s[i..i + |p|] == p
  }

  predicate StartsWith(s: string, p: string) {
    |p| <= |s| && s[..|p|] == p
  }

  ghost predicate Contains(s: string, p: string) {
    exists i: nat :: OccursAt(s, p, i)
  }

  /**
   * `s.replace(/p/g, r)` for a pattern without regular-expression
   * metacharacters: matches are found left to right and do not overlap.
   */
  function ReplaceAll(s: string, p: string, r: string): string
    requires |p| > 0
    decreases |s|
  {
    if |s| < |p| then s
    else if s[..|p|] == p then r + ReplaceAll(s[|p|..], p, r)
    else [s[0]] + ReplaceAll(s[1..], p, r)
  }

  /** The first character of a global replacement: the replacement's, or the input's own. */
  lemma ReplaceAllHead(s: string, p: string, r: string)
    requires |p| > 0 && |r| > 0 && |s| > 0
    ensures |ReplaceAll(s, p, r)| > 0
    ensures ReplaceAll(s, p, r)[0] == if StartsWith(s, p) then r[0] else s[0]
  {
  }

  lemma SliceShift(c: string, t: string, a: nat, b: nat)
    requires a <= b <= |t|
    ensures (c + t)[a + |c|..b + |c|] == t[a..b]
  {
  }

  /** An occurrence in `t` is an occurrence in `c + t`, shifted by `|c|`, and conversely. */
  lemma OccursAtShift(c: string, t: string, p: string, i: nat)
    ensures OccursAt(c + t, p, i + |c|) <==> OccursAt(t, p, i)
  {
    if i + |p| <= |t| {
      SliceShift(c, t, i, i + |p|);
    }
  }

  /** Proof hint: concatenation regrouped to the right. */
  lemma Associate(x: string, y: string, z: string)
    ensures x + y + z == x + (y + z)
  {
  }

  /** Proof hint: concatenation regrouped to the left. */
  lemma Regroup(x: string, y: string, z: string, w: string)
    ensures x + (y + z + w) == x + y + z + w
  {
  }

  /** A prefix that holds no character starting the pattern is left exactly as it is. */
  lemma {:induction false} ReplaceAllKeepsPrefix(a: string, b: string, p: string, r: string)
    requires |p| > 0
    requires p[0] !in a
    ensures ReplaceAll(a + b, p, r) == a + ReplaceAll(b, p, r)
  {
    if a != [] {
      var ab := a + b;
      assert ab[0] == a[0] && ab[1..] == a[1..] + b;
      ReplaceAllKeepsPrefix(a[1..], b, p, r);
      if |ab| >= |p| {
        assert ab[..|p|][0] == a[0];
        assert ab[..|p|] != p;
        calc {
          ReplaceAll(ab, p, r);
          [a[0]] + ReplaceAll(a[1..] + b, p, r);
          [a[0]] + (a[1..] + ReplaceAll(b, p, r));
          { assert [a[0]] + a[1..] == a; }
          a + ReplaceAll(b, p, r);
        }
      } else {
        assert ReplaceAll(b, p, r) == b;
      }
    } else {
      assert a + b == b;
    }
  }

  /** A string holding no match is its own replacement. */
  lemma {:induction false} ReplaceAllWithoutMatch(s: string, p: string, r: string)
    requires |p| > 0
    ensures !Contains(s, p) ==> ReplaceAll(s, p, r) == s
    decreases |s|
  {
    if !Contains(s, p) && |s| >= |p| {
      assert !OccursAt(s, p, 0);
      assert s[..|p|] != p;
      forall i: nat | OccursAt(s[1..], p, i) ensures false {
        assert s[1..][i..i + |p|] == s[i + 1..i + 1 + |p|];
        assert OccursAt(s, p, i + 1);
      }
      ReplaceAllWithoutMatch(s[1..], p, r);
      assert [s[0]] + s[1..] == s;
    }
  }

  /** The index of the first occurrence of `p` in `s` at or after `from`. */
  function IndexFrom(s: string, p: string, from: nat): (k: Option<nat>)
    ensures k.Some? ==> from <= k.value && OccursAt(s, p, k.value)
    ensures k.Some? ==> forall j: nat :: from <= j < k.value ==> !OccursAt(s, p, j)
    ensures k.None? ==> forall j: nat :: from <= j ==> !OccursAt(s, p, j)
    decreases |s| - from
  {
    if from + |p| > |s| then None
    else if s[from..from + |p|] == p then Some(from)
    else IndexFrom(s, p, from + 1)
  }

  /** `s.indexOf(p)`, with `None` for JavaScript's -1. */
  function IndexOf(s: string, p: string): (k: Option<nat>)
    ensures k.Some? ==> OccursAt(s, p, k.value) && forall j: nat :: j < k.value ==> !OccursAt(s, p, j)
    ensures k.None? ==> !Contains(s, p)
  {
    IndexFrom(s, p, 0)
  }

  /** `s.replace(p, r)` with a string pattern: only the first occurrence is replaced. */
  function ReplaceFirst(s: string, p: string, r: string): string {
    match IndexOf(s, p)
    case None => s
    case Some(k) => s[..k] + r + s[k + |p|..]
  }

  /** The first occurrence, and only it, is replaced; without one the string is unchanged. */
  lemma ReplaceFirstSpec(s: string, p: string, r: string)
    ensures !Contains(s, p) ==> ReplaceFirst(s, p, r) == s
    ensures StartsWith(s, p) ==> ReplaceFirst(s, p, r) == r + s[|p|..]
    ensures |ReplaceFirst(s, p, r)| == if Contains(s, p) then |s| - |p| + |r| else |s|
  {
    if StartsWith(s, p) {
      assert OccursAt(s, p, 0);
    }
    if Contains(s, p) {
      var i: nat :| OccursAt(s, p, i);
    }
  }

  /** `xs.join(sep)`. */
  function Join(xs: seq<string>, sep: string): string
    decreases |xs|
  {
    if |xs| == 0 then ""
    else if |xs| == 1 then xs[0]
    else xs[0] + sep + Join(xs[1..], sep)
  }

  /** The concatenation of `pieces` in order, as a loop of `+=` builds it. */
  function ConcatAll(pieces: seq<string>): string
    decreases |pieces|
  {
    if pieces == [] then ""
    else ConcatAll(pieces[..|pieces| - 1]) + pieces[|pieces| - 1]
  }

  lemma {:induction false} ConcatAllAppend(a: seq<string>, b: seq<string>)
    ensures ConcatAll(a + b) == ConcatAll(a) + ConcatAll(b)
    decreases |b|
  {
    if b == [] {
      assert a + b == a;
    } else {
      var b', last := b[..|b| - 1], b[|b| - 1];
      assert (a + b)[..|a + b| - 1] == a + b';
      assert (a + b)[|a + b| - 1] == last;
      ConcatAllAppend(a, b');
      Associate(ConcatAll(a), ConcatAll(b'), last);
    }
  }

  /** Splitting the list at any piece splits the concatenation at that piece. */
  lemma {:induction false} ConcatAllSplit(pieces: seq<string>, k: nat)
    requires k < |pieces|
    ensures ConcatAll(pieces) == ConcatAll(pieces[..k]) + pieces[k] + ConcatAll(pieces[k + 1..])
  {
    var front := pieces[..k + 1];
    assert pieces == front + pieces[k + 1..];
    ConcatAllAppend(front, pieces[k + 1..]);
    assert front[..|front| - 1] == pieces[..k];
    assert ConcatAll(front) == ConcatAll(pieces[..k]) + pieces[k];
  }

  /** How a template literal renders a possibly missing value. */
  function Interpolate(s: Option<string>): string {
    match s
    case Some(v) => v
    case None => "undefined"
  }

  function LowerChar(c: char): char {
    if 'A' <= c <= 'Z' then (c as int - 'A' as int + 'a' as int) as char else c
  }

  /** `s.toLowerCase()` restricted to the ASCII letters. */
  function Lower(s: string): (r: string)
    ensures |r| == |s|
    ensures forall i :: 0 <= i < |s| ==> r[i] == LowerChar(s[i])
  {
    seq(|s|, i requires 0 <= i < |s| => LowerChar(s[i]))
  }
}
