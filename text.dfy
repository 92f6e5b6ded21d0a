/**
  The string operations of JavaScript that the module relies on:
  `split` on a one-character separator, `join`, `includes`, `startsWith`
  (Dafny's sequence prefix `<=`) and `replace` of the first occurrence of a
  one-character pattern.
 */
module Text {

  /** `s.split(d)` for a one-character separator: never empty, one item more than separators. */
  function Split(s: string, d: char): (parts: seq<string>)
    ensures |parts| >= 1
    ensures forall k :: 0 <= k < |parts| ==> d !in parts[k]
    decreases |s|
  {
    if |s| == 0 then [""]
    else
      var rest := Split(s[1..], d);
      if s[0] == d then [""] + rest
      else [[s[0]] + rest[0]] + rest[1..]
  }

  /** `parts.join(d)` */
  function Join(parts: seq<string>, d: char): string
    decreases |parts|
  {
    if |parts| == 0 then ""
    else if |parts| == 1 then parts[0]
    else parts[0] + [d] + Join(parts[1..], d)
  }

  /** Joining what was split gives back the string. */
  lemma {:induction false} JoinSplit(s: string, d: char)
    ensures Join(Split(s, d), d) == s
    decreases |s|
  {
    if |s| > 0 {
      var rest := Split(s[1..], d);
      JoinSplit(s[1..], d);
      if s[0] == d {
        assert ([""] + rest)[1..] == rest;
      } else if |rest| > 1 {
        var parts := [[s[0]] + rest[0]] + rest[1..];
        assert parts[1..] == rest[1..];
        assert Join(rest, d) == rest[0] + [d] + Join(rest[1..], d);
      }
    }
  }

  /** A string without the separator splits into itself. */
  lemma {:induction false} SplitWithoutSeparator(s: string, d: char)
    requires d !in s
    ensures Split(s, d) == [s]
    decreases |s|
  {
    if |s| > 0 {
      assert d !in s[1..] by {
        forall k | 0 <= k < |s[1..]| ensures s[1..][k] != d {
          assert s[1..][k] == s[k + 1];
        }
      }
      SplitWithoutSeparator(s[1..], d);
      assert [s[0]] + s[1..] == s;
    }
  }

  /** Splitting `p + d + t` where `p` has no separator peels `p` off. */
  lemma {:induction false} SplitAfterPart(p: string, d: char, t: string)
    requires d !in p
    ensures Split(p + [d] + t, d) == [p] + Split(t, d)
    decreases |p|
  {
    if |p| == 0 {
      assert p + [d] + t == [d] + t;
      assert ([d] + t)[1..] == t;
    } else {
      var s := p + [d] + t;
      assert s[0] == p[0] && s[1..] == p[1..] + [d] + t;
      assert d !in p[1..] by {
        forall k | 0 <= k < |p[1..]| ensures p[1..][k] != d {
          assert p[1..][k] == p[k + 1];
        }
      }
      SplitAfterPart(p[1..], d, t);
      assert [p[0]] + p[1..] == p;
    }
  }

  /** Splitting what was joined gives back the parts, when no part holds the separator. */
  lemma {:induction false} SplitJoin(parts: seq<string>, d: char)
    requires |parts| >= 1
    requires forall k :: 0 <= k < |parts| ==> d !in parts[k]
    ensures Split(Join(parts, d), d) == parts
    decreases |parts|
  {
    if |parts| == 1 {
      SplitWithoutSeparator(parts[0], d);
    } else {
      SplitJoin(parts[1..], d);
      SplitAfterPart(parts[0], d, Join(parts[1..], d));
      assert [parts[0]] + parts[1..] == parts;
    }
  }

  /** `s.includes(sub)` */
  predicate Contains(s: string, sub: string)
    decreases |s|
  {
    sub <= s || (|s| > 0 && Contains(s[1..], sub))
  }

  /** `sub` occurs in `s` starting at index `k`. */
  predicate OccursAt(s: string, sub: string, k: int) {
    0 <= k <= |s| && sub <= s[k..]
  }

  /** `includes` holds exactly when `sub` occurs at some index of `s`. */
  lemma {:induction false} ContainsAt(s: string, sub: string)
    ensures Contains(s, sub) <==> exists k :: OccursAt(s, sub, k)
    decreases |s|
  {
    assert s[0..] == s;
    if sub <= s {
      assert OccursAt(s, sub, 0);
    }
    if |s| > 0 {
      ContainsAt(s[1..], sub);
      if Contains(s[1..], sub) {
        var k :| OccursAt(s[1..], sub, k);
        assert s[1..][k..] == s[k + 1..];
        assert OccursAt(s, sub, k + 1);
      }
      if exists k :: OccursAt(s, sub, k) {
        var k :| OccursAt(s, sub, k);
        if k > 0 {
          assert s[1..][k - 1..] == s[k..];
          assert OccursAt(s[1..], sub, k - 1);
        } else {
          assert s[k..] == s;
        }
      }
    } else {
      if exists k :: OccursAt(s, sub, k) {
        var k :| OccursAt(s, sub, k);
        assert k == 0;
      }
    }
  }

  /** Index of the first occurrence of `c` in `s`. */
  function FirstIndex(s: string, c: char): (k: nat)
    requires c in s
    ensures k < |s| && s[k] == c && c !in s[..k]
    decreases |s|
  {
    if s[0] == c then 0
    else
      assert c in s[1..] by { var j :| 0 <= j < |s| && s[j] == c; assert s[1..][j - 1] == c; }
      var k := FirstIndex(s[1..], c);
      assert s[..k + 1] == [s[0]] + s[1..][..k];
      k + 1
  }

  /** `s.replace(c, '')` with a one-character string pattern: drops the first occurrence only. */
  function ReplaceFirst(s: string, c: char): string {
    if c in s then s[..FirstIndex(s, c)] + s[FirstIndex(s, c) + 1..] else s
  }
}
