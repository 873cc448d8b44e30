/** The handful of Python `str` operations the scripts rely on: `strip`, `lower`,
    `replace` of one character, `in` (substring test), `startswith` and `split('.')[0]`. */
module Text {

  /** Python's `str.isspace` for one code point: the characters `strip()` and `int()` drop. */
  predicate IsSpace(c: char) {
    || ('\t' <= c <= '\r')
    || ('\U{1C}' <= c <= '\U{1F}')
    || c == ' ' || c == '\U{85}' || c == '\U{A0}' || c == '\U{1680}'
    || ('\U{2000}' <= c <= '\U{200A}')
    || c == '\U{2028}' || c == '\U{2029}' || c == '\U{202F}' || c == '\U{205F}' || c == '\U{3000}'
  }

  /** `s` without its longest prefix of characters satisfying `drop`. */
  function DropLeading(s: string, drop: char -> bool): (r: string)
    ensures |r| <= |s|
    ensures |r| > 0 ==> !drop(r[0])
    ensures forall i :: 0 <= i < |s| - |r| ==> drop(s[i])
  {
    if |s| > 0 && drop(s[0]) then
      var r := DropLeading(s[1..], drop);
      assert forall i :: 1 <= i < |s| - |r| ==> s[i] == s[1..][i - 1];
      r
    else s
  }

  /** `s` without its longest suffix of characters satisfying `drop`. */
  function DropTrailing(s: string, drop: char -> bool): (r: string)
    ensures |r| <= |s| && r == s[..|r|]
    ensures |r| > 0 ==> !drop(r[|r| - 1])
    ensures forall i :: |r| <= i < |s| ==> drop(s[i])
  {
    if |s| > 0 && drop(s[|s| - 1]) then
      var r := DropTrailing(s[..|s| - 1], drop);
      assert forall i :: |r| <= i < |s| - 1 ==> s[i] == s[..|s| - 1][i];
      r
    else s
  }

  /** Python's `s.strip(chars)`: drop matching characters from both ends. */
  function StripBy(s: string, drop: char -> bool): (r: string)
    ensures |r| <= |s|
    ensures |r| > 0 ==> !drop(r[0]) && !drop(r[|r| - 1])
  {
    DropTrailing(DropLeading(s, drop), drop)
  }

  /** Text that neither starts nor ends with a dropped character is left as it is. */
  lemma StripByKeeps(s: string, drop: char -> bool)
    requires |s| > 0 && !drop(s[0]) && !drop(s[|s| - 1])
    ensures StripBy(s, drop) == s
  {
    assert DropLeading(s, drop) == s;
  }

  /** Python's `s.strip()`. */
  function Strip(s: string): (r: string)
    ensures |r| <= |s|
  {
    StripBy(s, IsSpace)
  }

  /** Python's `s.strip(c)` for a single character `c`. */
  function StripChar(s: string, c: char): (r: string)
    ensures |r| <= |s|
  {
    StripBy(s, x => x == c)
  }

  /** Text that neither starts nor ends with `c` is left as it is by `strip(c)`. */
  lemma StripCharKeeps(s: string, c: char)
    requires |s| > 0 && s[0] != c && s[|s| - 1] != c
    ensures StripChar(s, c) == s
  {
    StripByKeeps(s, x => x == c);
  }

  /** `str.lower` on one character; only the ASCII letters are mapped. */
  function LowerChar(c: char): char {
    if 'A' <= c <= 'Z' then (c as int + 32) as char else c
  }

  predicate IsUpper(c: char) {
    'A' <= c <= 'Z'
  }

  function Lower(s: string): (r: string)
    ensures |r| == |s|
    ensures forall i :: 0 <= i < |s| ==> r[i] == LowerChar(s[i])
    ensures forall i :: 0 <= i < |r| ==> !IsUpper(r[i])
  {
    seq(|s|, i requires 0 <= i < |s| => LowerChar(s[i]))
  }

  /** Lowering twice is lowering once. */
  lemma LowerIdempotent(s: string)
    ensures Lower(Lower(s)) == Lower(s)
  {
    var l := Lower(s);
    assert forall i :: 0 <= i < |l| ==> Lower(l)[i] == l[i];
  }

  /** Code-point lexicographic order: `a` sorts at or before `b`. */
  predicate LexLe(a: string, b: string)
    decreases |a|
  {
    |a| == 0 || (|b| > 0 && (a[0] < b[0] || (a[0] == b[0] && LexLe(a[1..], b[1..]))))
  }

  lemma {:induction false} LexLeTrans(a: string, b: string, c: string)
    requires LexLe(a, b) && LexLe(b, c)
    ensures LexLe(a, c)
    decreases |a|
  {
    if |a| > 0 && a[0] == b[0] && b[0] == c[0] {
      LexLeTrans(a[1..], b[1..], c[1..]);
    }
  }

  /** Any two strings are ordered one way or the other. */
  lemma {:induction false} LexLeTotal(a: string, b: string)
    ensures LexLe(a, b) || LexLe(b, a)
    decreases |a|
  {
    if |a| > 0 && |b| > 0 && a[0] == b[0] {
      LexLeTotal(a[1..], b[1..]);
    }
  }

  /** Python's `s.replace(a, b)` for single characters. */
  function ReplaceChar(s: string, a: char, b: char): (r: string)
    ensures |r| == |s|
    ensures forall i :: 0 <= i < |s| ==> r[i] == (if s[i] == a then b else s[i])
  {
    seq(|s|, i requires 0 <= i < |s| => if s[i] == a then b else s[i])
  }

  predicate StartsWith(s: string, prefix: string) {
    |prefix| <= |s| && s[..|prefix|] == prefix
  }

  /** Python's `k in s`: `k` occurs somewhere in `s` (the empty string occurs everywhere). */
  predicate Contains(s: string, k: string)
    decreases |s|
  {
    StartsWith(s, k) || (|s| > 0 && Contains(s[1..], k))
  }

  /** `k` occurs in `s` at offset `i`: the index-based reading of `k in s`. */
  ghost predicate OccursAt(s: string, k: string, i: int) {
    0 <= i && i + |k| <= |s| && s[i..i + |k|] == k
  }

  /** The recursive substring test agrees with the index-based definition, both ways. */
  lemma {:induction false} ContainsIffOccurs(s: string, k: string)
    ensures Contains(s, k) <==> exists i :: OccursAt(s, k, i)
    decreases |s|
  {
    if StartsWith(s, k) {
      assert OccursAt(s, k, 0);
    } else {
      if |s| > 0 {
        ContainsIffOccurs(s[1..], k);
        forall j | OccursAt(s[1..], k, j)
          ensures OccursAt(s, k, j + 1)
        {
          assert s[1..][j..j + |k|] == s[j + 1..j + 1 + |k|];
        }
        forall i | OccursAt(s, k, i)
          ensures OccursAt(s[1..], k, i - 1)
        {
          assert s[1..][i - 1..i - 1 + |k|] == s[i..i + |k|];
        }
      }
    }
  }

  /** An occurrence witnesses the substring test. */
  lemma ContainsAt(s: string, k: string, i: int)
    requires OccursAt(s, k, i)
    ensures Contains(s, k)
  {
    ContainsIffOccurs(s, k);
  }

  /** Python's `any(k in s for k in keywords)`. */
  predicate AnyContains(s: string, keywords: seq<string>) {
    exists i :: 0 <= i < |keywords| && Contains(s, keywords[i])
  }

  /** `any(k.lower() in name.lower() for k in keywords)`: a case-insensitive keyword test. */
  predicate MatchesAny(name: string, keywords: seq<string>) {
    exists k :: 0 <= k < |keywords| && Contains(Lower(name), Lower(keywords[k]))
  }

  /** Python's `s.split(c)[0]`: the text before the first `c`, or all of `s`. */
  function BeforeFirst(s: string, c: char): (r: string)
    ensures StartsWith(s, r)
    ensures c !in r
    ensures |r| < |s| ==> s[|r|] == c
  {
    if |s| == 0 then ""
    else if s[0] == c then ""
    else [s[0]] + BeforeFirst(s[1..], c)
  }

  /** Splitting at the first `c` recovers a prefix free of `c`. */
  lemma {:induction false} BeforeFirstConcat(x: string, y: string, c: char)
    requires c !in x && |y| > 0 && y[0] == c
    ensures BeforeFirst(x + y, c) == x
    decreases |x|
  {
    if |x| > 0 {
      assert (x + y)[1..] == x[1..] + y;
      BeforeFirstConcat(x[1..], y, c);
    } else {
      assert x + y == y;
    }
  }
}
