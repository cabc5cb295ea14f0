/**
 * String helpers the PHP code gets from its runtime: case-insensitive
 * substring search (what `preg_match('/a|b/i', …)` does for plain
 * alternatives) and `explode` / `implode` on a one-character delimiter.
 * Case folding covers ASCII letters only, as PCRE does without the /u flag.
 */
module Text {

  function Lower(c: char): char {
    if 'A' <= c <= 'Z' then (c as int + 32) as char else c
  }

  function LowerString(s: string): (r: string)
    ensures |r| == |s|
    ensures forall k :: 0 <= k < |s| ==> r[k] == Lower(s[k])
  {
    seq(|s|, k requires 0 <= k < |s| => Lower(s[k]))
  }

  /** `p` occurs in `s` at some offset: the reference definition. */
  ghost predicate OccursIn(p: string, s: string) {
    exists i :: OccursAt(p, s, i)
  }

  ghost predicate OccursAt(p: string, s: string, i: int) {
    0 <= i && i + |p| <= |s| && s[i..i + |p|] == p
  }

  /** Left-to-right scan for `p` in `s`. */
  predicate Contains(s: string, p: string)
    decreases |s|
  {
    p <= s || (|s| > 0 && Contains(s[1..], p))
  }

  /** The scan finds `p` exactly when `p` occurs somewhere in `s`. */
  lemma {:induction false} ContainsIffOccurs(s: string, p: string)
    ensures Contains(s, p) <==> OccursIn(p, s)
    decreases |s|
  {
    if p <= s {
      assert OccursAt(p, s, 0);
    } else if |s| == 0 {
    } else {
      ContainsIffOccurs(s[1..], p);
      if Contains(s[1..], p) {
        var i :| OccursAt(p, s[1..], i);
        assert s[i + 1..i + 1 + |p|] == p;
        assert OccursAt(p, s, i + 1);
      }
      if OccursIn(p, s) {
        var i :| OccursAt(p, s, i);
        assert i != 0 by { assert s[..|p|] != p || |p| > |s|; }
        assert s[1..][i - 1..i - 1 + |p|] == p;
        assert OccursAt(p, s[1..], i - 1);
      }
    }
  }

  /** Whatever contains `a + b` contains `b`. */
  lemma ContainsPart(s: string, a: string, b: string)
    requires Contains(s, a + b)
    ensures Contains(s, b)
  {
    ContainsIffOccurs(s, a + b);
    var i :| OccursAt(a + b, s, i);
    assert s[i + |a|..i + |a| + |b|] == (a + b)[|a|..];
    assert OccursAt(b, s, i + |a|);
    ContainsIffOccurs(s, b);
  }

  /** Case-insensitive match of the pattern `lower`, written in lower case, anywhere in `s`. */
  predicate ContainsCI(s: string, lower: string) {
    Contains(LowerString(s), lower)
  }

  /** PHP `explode(d, s)`: the pieces of `s` between occurrences of `d`. */
  function Split(s: string, d: char): (parts: seq<string>)
    ensures |parts| >= 1
    ensures forall k :: 0 <= k < |parts| ==> d !in parts[k]
    decreases |s|
  {
    if s == [] then [[]]
    else
      var rest := Split(s[1..], d);
      if s[0] == d then [[]] + rest
      else [[s[0]] + rest[0]] + rest[1..]
  }

  /** PHP `implode(d, parts)`. */
  function Join(parts: seq<string>, d: char): string
    decreases |parts|
  {
    if parts == [] then []
    else if |parts| == 1 then parts[0]
    else parts[0] + [d] + Join(parts[1..], d)
  }

  /** `implode(d, explode(d, s)) == s`. */
  lemma {:induction false} JoinSplit(s: string, d: char)
    ensures Join(Split(s, d), d) == s
    decreases |s|
  {
    if s != [] {
      var rest := Split(s[1..], d);
      JoinSplit(s[1..], d);
      if s[0] == d {
        assert Split(s, d) == [[]] + rest;
      } else {
        var parts := Split(s, d);
        assert parts == [[s[0]] + rest[0]] + rest[1..];
        if |rest| == 1 {
          assert Join(parts, d) == [s[0]] + rest[0];
        } else {
          assert parts[1..] == rest[1..];
          assert Join(rest, d) == rest[0] + [d] + Join(rest[1..], d);
          assert Join(parts, d) == ([s[0]] + rest[0]) + [d] + Join(rest[1..], d);
        }
      }
    }
  }

  /** `explode(d, implode(d, parts)) == parts` when no part holds `d`. */
  lemma {:induction false} SplitJoin(parts: seq<string>, d: char)
    requires |parts| >= 1
    requires forall k :: 0 <= k < |parts| ==> d !in parts[k]
    ensures Split(Join(parts, d), d) == parts
    decreases |parts|, |parts[0]|
  {
    var p := parts[0];
    if |parts| == 1 {
      SplitPiece(p, [], d);
      assert p + [] == p;
    } else {
      SplitJoin(parts[1..], d);
      var tail := Join(parts[1..], d);
      assert Join(parts, d) == p + ([d] + tail);
      SplitPiece(p, [d] + tail, d);
      assert Split([d] + tail, d) == [[]] + parts[1..];
      assert p + [] == p;
      assert [p] + parts[1..] == parts;
    }
  }

  /** Splitting a delimiter-free prefix `p` onto `t` glues `p` to the first piece of `t`. */
  lemma {:induction false} SplitPiece(p: string, t: string, d: char)
    requires d !in p
    ensures Split(p + t, d) == [p + Split(t, d)[0]] + Split(t, d)[1..]
    decreases |p|
  {
    if p == [] {
      assert p + t == t;
      assert Split(t, d)[0] == p + Split(t, d)[0];
    } else {
      SplitPiece(p[1..], t, d);
      assert (p + t)[1..] == p[1..] + t;
      assert [p[0]] + (p[1..] + Split(t, d)[0]) == p + Split(t, d)[0];
    }
  }
}
