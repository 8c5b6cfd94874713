/**
 * The string operations the handlers rely on, stated on `seq<char>`:
 * Python's `str.strip()`, `str.lower()`, substring search,
 * `str.rsplit(c, 1)[-1]` and code-point ordering of strings (the order of
 * Python's `sorted` and of the database's binary collation).
 */
module Text {

  /** The characters Python's `str.isspace()` accepts, which `str.strip()` removes. */
  predicate IsSpace(c: char) {
    || c == ' '
    || ('\t' <= c <= '\r')
    || ('\U{1C}' <= c <= '\U{1F}')
    || c == '\U{85}' || c == '\U{A0}' || c == '\U{1680}'
    || ('\U{2000}' <= c <= '\U{200A}')
    || c == '\U{2028}' || c == '\U{2029}' || c == '\U{202F}' || c == '\U{205F}'
    || c == '\U{3000}'
  }

  /** Every character of `s` satisfies `p`. */
  predicate All(s: string, p: char -> bool) {
    forall i :: 0 <= i < |s| ==> p(s[i])
  }

  /** Number of characters at the start of `s` that satisfy `p`. */
  function LeadingRun(s: string, p: char -> bool): (k: nat)
    ensures k <= |s|
    ensures All(s[..k], p)
    ensures k < |s| ==> !p(s[k])
  {
    if |s| == 0 || !p(s[0]) then 0
    else
      var k := 1 + LeadingRun(s[1..], p);
      assert s[..k] == [s[0]] + s[1..][..k - 1];
      k
  }

  /** Number of characters at the end of `s` that satisfy `p`. */
  function TrailingRun(s: string, p: char -> bool): (k: nat)
    ensures k <= |s|
    ensures All(s[|s| - k..], p)
    ensures k < |s| ==> !p(s[|s| - k - 1])
  {
    if |s| == 0 || !p(s[|s| - 1]) then 0
    else
      var init := s[..|s| - 1];
      var k := 1 + TrailingRun(init, p);
      assert s[|s| - k..] == init[|init| - (k - 1)..] + [s[|s| - 1]];
      k
  }

  /**
   * `s[i..j]` is what remains of `s` once the characters satisfying `p` are
   * removed from both ends: only such characters lie outside it, and it
   * neither starts nor ends with one.
   */
  predicate TrimmedAt(s: string, i: nat, j: nat, p: char -> bool) {
    && i <= j <= |s|
    && All(s[..i], p) && All(s[j..], p)
    && (i < j ==> !p(s[i]) && !p(s[j - 1]))
  }

  /**
   * A run of `i` characters satisfying `p` at the start of `s`, and a run of
   * `t` at the end of the rest, each stopping at a character outside `p`,
   * mark the trimmed part.
   */
  lemma TrimmedAtRuns(s: string, i: nat, t: nat, p: char -> bool)
    requires i <= |s| && All(s[..i], p) && (i < |s| ==> !p(s[i]))
    requires t <= |s| - i && All(s[i..][|s| - i - t..], p)
    requires t < |s| - i ==> !p(s[i..][|s| - i - t - 1])
    ensures TrimmedAt(s, i, |s| - t, p)
  {
    var rest := s[i..];
    var suffix := s[|s| - t..];
    forall k | 0 <= k < t ensures p(suffix[k]) {
      assert suffix[k] == rest[|rest| - t..][k];
    }
    if i < |s| - t {
      assert s[|s| - t - 1] == rest[|rest| - t - 1];
    }
  }

  /** A string all of whose characters satisfy `p` on both sides of `i` satisfies it throughout. */
  lemma AllSplit(s: string, i: nat, p: char -> bool)
    requires i <= |s| && All(s[..i], p) && All(s[i..], p)
    ensures All(s, p)
  {
    forall k | 0 <= k < |s| ensures p(s[k]) {
      if k < i {
        assert s[k] == s[..i][k];
      } else {
        assert s[k] == s[i..][k - i];
      }
    }
  }

  /** What is trimmed away is everything exactly when every character satisfies `p`. */
  lemma TrimmedAtEmpty(s: string, i: nat, j: nat, p: char -> bool)
    requires TrimmedAt(s, i, j, p)
    ensures i == j <==> All(s, p)
  {
    if i == j {
      assert s[i..] == s[j..];
      AllSplit(s, i, p);
    } else {
      assert !p(s[i]);
    }
  }

  /** `s` without the characters satisfying `p` at either end. */
  function Trim(s: string, p: char -> bool): (r: string)
    ensures exists i: nat, j: nat :: TrimmedAt(s, i, j, p) && r == s[i..j]
    ensures r == "" <==> All(s, p)
  {
    var i := LeadingRun(s, p);
    var t := TrailingRun(s[i..], p);
    TrimmedAtRuns(s, i, t, p);
    TrimmedAtEmpty(s, i, |s| - t, p);
    s[i..|s| - t]
  }

  /** Trimming what is already trimmed changes nothing. */
  lemma TrimIdempotent(s: string, p: char -> bool)
    ensures Trim(Trim(s, p), p) == Trim(s, p)
  {
    var r := Trim(s, p);
    var i: nat, j: nat :| TrimmedAt(s, i, j, p) && r == s[i..j];
    if r != "" {
      assert !p(r[0]) && !p(r[|r| - 1]);
      assert LeadingRun(r, p) == 0;
      assert r[0..] == r;
      assert TrailingRun(r, p) == 0;
    }
  }

  /** Python's `s.strip()`: `s` without its leading and trailing whitespace. */
  function Strip(s: string): (r: string)
    ensures exists i: nat, j: nat :: TrimmedAt(s, i, j, IsSpace) && r == s[i..j]
    ensures r == "" <==> All(s, IsSpace)
  {
    Trim(s, IsSpace)
  }

  lemma StripIdempotent(s: string)
    ensures Strip(Strip(s)) == Strip(s)
  {
    TrimIdempotent(s, IsSpace);
  }

  /** The upper-case letters of Latin-1 that Python's `str.lower()` maps 32 code points up. */
  predicate IsUpper(c: char) {
    ('A' <= c <= 'Z') || ('\U{C0}' <= c <= '\U{DE}' && c != '\U{D7}')
  }

  /** Python's lower-casing of one character, for the Latin-1 range. */
  function LowerChar(c: char): (d: char)
    ensures !IsUpper(d)
    ensures !IsUpper(c) ==> d == c
    ensures IsUpper(c) ==> d as int == c as int + 32
  {
    if IsUpper(c) then (c as int + 32) as char else c
  }

  /** Python's `s.lower()` for text in the Latin-1 range, character by character. */
  function Lower(s: string): (r: string)
    ensures |r| == |s|
    ensures forall i :: 0 <= i < |s| ==> !IsUpper(r[i])
    ensures forall i :: 0 <= i < |s| && !IsUpper(s[i]) ==> r[i] == s[i]
    ensures forall i :: 0 <= i < |s| && IsUpper(s[i]) ==> r[i] as int == s[i] as int + 32
  {
    seq(|s|, i requires 0 <= i < |s| => LowerChar(s[i]))
  }

  lemma LowerIdempotent(s: string)
    ensures Lower(Lower(s)) == Lower(s)
  {
  }

  /** The only letters the database's built-in `lower()` folds: ASCII `A` to `Z`. */
  predicate IsAsciiUpper(c: char) {
    'A' <= c <= 'Z'
  }

  /** SQLite's built-in `lower()`: ASCII letters 32 code points up, every other character kept. */
  function LowerAscii(s: string): (r: string)
    ensures |r| == |s|
    ensures forall i :: 0 <= i < |s| ==> !IsAsciiUpper(r[i])
    ensures forall i :: 0 <= i < |s| && !IsAsciiUpper(s[i]) ==> r[i] == s[i]
    ensures forall i :: 0 <= i < |s| && IsAsciiUpper(s[i]) ==> r[i] as int == s[i] as int + 32
  {
    seq(|s|, i requires 0 <= i < |s| => if IsAsciiUpper(s[i]) then (s[i] as int + 32) as char else s[i])
  }

  lemma LowerAsciiIdempotent(s: string)
    ensures LowerAscii(LowerAscii(s)) == LowerAscii(s)
  {
  }

  /** On ASCII text the database's folding and Python's agree; beyond it they differ. */
  lemma LowerAsciiAgrees(s: string)
    requires forall i :: 0 <= i < |s| ==> s[i] < '\U{80}'
    ensures LowerAscii(s) == Lower(s)
  {
  }

  predicate IsPrefix(p: string, s: string) {
    |p| <= |s| && s[..|p|] == p
  }

  /** Substring search, the `%q%` pattern of a SQL `LIKE` without wildcards in `q`. */
  predicate Contains(s: string, sub: string)
    decreases |s|
  {
    IsPrefix(sub, s) || (|s| > 0 && Contains(s[1..], sub))
  }

  predicate OccursAt(s: string, sub: string, i: nat) {
    i + |sub| <= |s| && s[i..i + |sub|] == sub
  }

  /** `Contains` holds exactly when `sub` occurs at some position of `s`. */
  lemma {:induction false} ContainsIffOccurs(s: string, sub: string)
    ensures Contains(s, sub) <==> exists i :: OccursAt(s, sub, i)
    decreases |s|
  {
    if IsPrefix(sub, s) {
      assert OccursAt(s, sub, 0);
    } else if |s| == 0 {
    } else {
      ContainsIffOccurs(s[1..], sub);
      if exists i :: OccursAt(s, sub, i) {
        var i: nat :| OccursAt(s, sub, i);
        assert i != 0;
        assert s[1..][i - 1..i - 1 + |sub|] == s[i..i + |sub|];
        assert OccursAt(s[1..], sub, i - 1);
      }
      if Contains(s[1..], sub) {
        var i: nat :| OccursAt(s[1..], sub, i);
        assert s[1..][i..i + |sub|] == s[i + 1..i + 1 + |sub|];
        assert OccursAt(s, sub, i + 1);
      }
    }
  }

  lemma {:induction false} ContainsEmpty(s: string)
    ensures Contains(s, "")
  {
    assert IsPrefix("", s);
  }

  /**
   * The part of `s` after the last `c`, or all of `s` when `c` does not
   * occur: Python's `s.rsplit(c, 1)[-1]`. It is the longest suffix of `s`
   * free of `c`.
   */
  function AfterLast(s: string, c: char): (r: string)
    ensures c !in r
    ensures |r| <= |s| && r == s[|s| - |r|..]
    ensures |r| < |s| ==> s[|s| - |r| - 1] == c
    ensures c !in s ==> r == s
  {
    if |s| == 0 then ""
    else if s[|s| - 1] == c then ""
    else
      var init := s[..|s| - 1];
      var r := AfterLast(init, c) + [s[|s| - 1]];
      assert s[|s| - |r|..] == init[|init| - (|r| - 1)..] + [s[|s| - 1]];
      assert c !in s ==> c !in init;
      assert c !in s ==> init == s[..|s| - 1] && s == init + [s[|s| - 1]];
      r
  }

  /**
   * Code-point (lexicographic) order on strings: the order of Python's
   * `sorted` on `str` and of a database's binary collation.
   */
  predicate LexLe(a: string, b: string) {
    |a| == 0 || (|b| != 0 && (a[0] < b[0] || (a[0] == b[0] && LexLe(a[1..], b[1..]))))
  }

  lemma {:induction false} LexLeReflexive(a: string)
    ensures LexLe(a, a)
  {
    if |a| != 0 { LexLeReflexive(a[1..]); }
  }

  lemma {:induction false} LexLeTotal(a: string, b: string)
    ensures LexLe(a, b) || LexLe(b, a)
  {
    if |a| != 0 && |b| != 0 && a[0] == b[0] { LexLeTotal(a[1..], b[1..]); }
  }

  lemma {:induction false} LexLeAntisymmetric(a: string, b: string)
    requires LexLe(a, b) && LexLe(b, a)
    ensures a == b
  {
    if |a| != 0 {
      LexLeAntisymmetric(a[1..], b[1..]);
      assert a == [a[0]] + a[1..] && b == [b[0]] + b[1..];
    }
  }

  lemma {:induction false} LexLeTransitive(a: string, b: string, c: string)
    requires LexLe(a, b) && LexLe(b, c)
    ensures LexLe(a, c)
  {
    if |a| != 0 && a[0] == b[0] && b[0] == c[0] {
      LexLeTransitive(a[1..], b[1..], c[1..]);
    }
  }
}
