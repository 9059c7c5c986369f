/**
 * The pieces of Python's string library that the recognizer and the report
 * builder rely on: `str.strip()`, `str.replace(old, new)`, `str(int)`,
 * `int(str)` (base 10), and `os.path.basename` / `os.path.splitext`.
 */
module Strings {
  import opened Wrappers

  // ---------------------------------------------------------------------------
  // Whitespace and str.strip()
  // ---------------------------------------------------------------------------

  /** Python's `str.isspace()` for one character (the Unicode White_Space set CPython uses). */
  predicate IsSpace(c: char) {
    var n := c as int;
    (0x09 <= n <= 0x0D) || (0x1C <= n <= 0x20) || n == 0x85 || n == 0xA0 || n == 0x1680
    || (0x2000 <= n <= 0x200A) || n == 0x2028 || n == 0x2029 || n == 0x202F || n == 0x205F
    || n == 0x3000
  }

  /** `r` sits at offset `i` of `s` with only whitespace before and after it. */
  predicate StripsTo(s: string, i: int, r: string) {
    && 0 <= i <= |s| - |r|
    && (forall k :: 0 <= k < |r| ==> r[k] == s[i + k])
    && (forall k :: 0 <= k < i ==> IsSpace(s[k]))
    && (forall k :: i + |r| <= k < |s| ==> IsSpace(s[k]))
  }

  /** The lstrip scan: the first index at or after `i` that does not hold whitespace. */
  function SkipSpace(s: string, i: nat): (j: nat)
    requires i <= |s|
    ensures i <= j <= |s|
    ensures forall k :: i <= k < j ==> IsSpace(s[k])
    ensures j == |s| || !IsSpace(s[j])
    decreases |s| - i
  {
    if i < |s| && IsSpace(s[i]) then SkipSpace(s, i + 1) else i
  }

  /** The rstrip scan: where the text before `j` ends once its trailing whitespace, down to `lo`, is dropped. */
  function TrimEnd(s: string, lo: nat, j: nat): (e: nat)
    requires lo <= j <= |s|
    ensures lo <= e <= j
    ensures forall k :: e <= k < j ==> IsSpace(s[k])
    ensures e == lo || !IsSpace(s[e - 1])
  {
    if j > lo && IsSpace(s[j - 1]) then TrimEnd(s, lo, j - 1) else j
  }

  /** `str.strip()`: `s` without its leading and trailing whitespace. */
  function Strip(s: string): (r: string)
    ensures |r| <= |s|
    ensures r == [] || (!IsSpace(r[0]) && !IsSpace(r[|r| - 1]))
    ensures exists i :: StripsTo(s, i, r)
  {
    var i := SkipSpace(s, 0);
    var e := TrimEnd(s, i, |s|);
    assert StripsTo(s, i, s[i..e]);
    s[i..e]
  }

  /** Stripping twice is stripping once. */
  lemma StripIdempotent(s: string)
    ensures Strip(Strip(s)) == Strip(s)
  {
    StripKeeps(Strip(s));
  }

  /** A string with no whitespace at either end is left as it is. */
  lemma StripKeeps(s: string)
    requires s == [] || (!IsSpace(s[0]) && !IsSpace(s[|s| - 1]))
    ensures Strip(s) == s
  {
    assert SkipSpace(s, 0) == 0;
    assert TrimEnd(s, 0, |s|) == |s|;
  }

  // ---------------------------------------------------------------------------
  // str.replace(old, new)
  // ---------------------------------------------------------------------------

  /** `pat` occurs in `s` at position `k`. */
  predicate OccursAt(pat: string, s: string, k: int) {
    0 <= k && k + |pat| <= |s| && s[k..k + |pat|] == pat
  }

  /**
   * `s.replace(pat, rep)` for a non-empty `pat`: one left-to-right scan that
   * replaces each non-overlapping occurrence of `pat` by `rep`.
   */
  function Replace(s: string, pat: string, rep: string): (r: string)
    requires |pat| > 0
    decreases |s|
  {
    if |s| < |pat| then s
    else if s[..|pat|] == pat then rep + Replace(s[|pat|..], pat, rep)
    else [s[0]] + Replace(s[1..], pat, rep)
  }

  /** Where `pat` does not occur, replacing it changes nothing. */
  lemma {:induction false} ReplaceAbsent(s: string, pat: string, rep: string)
    requires |pat| > 0
    requires forall k :: !OccursAt(pat, s, k)
    ensures Replace(s, pat, rep) == s
    decreases |s|
  {
    if |s| >= |pat| {
      assert !OccursAt(pat, s, 0);
      forall k ensures !OccursAt(pat, s[1..], k) {
        if 0 <= k && k + |pat| <= |s| - 1 {
          assert s[1..][k..k + |pat|] == s[k + 1..k + 1 + |pat|];
          assert !OccursAt(pat, s, k + 1);
        }
      }
      ReplaceAbsent(s[1..], pat, rep);
    }
  }

  /** A prefix none of whose characters can start `pat` is copied through unchanged. */
  lemma {:induction false} ReplaceSkips(x: string, rest: string, pat: string, rep: string)
    requires |pat| > 0
    requires forall k :: 0 <= k < |x| ==> x[k] != pat[0]
    ensures Replace(x + rest, pat, rep) == x + Replace(rest, pat, rep)
    decreases |x|
  {
    if x == [] {
      assert x + rest == rest;
    } else {
      var s := x + rest;
      if |s| >= |pat| {
        assert s[..|pat|][0] == x[0];
        ReplaceStep(s, pat, rep);
        assert s[1..] == x[1..] + rest;
        ReplaceSkips(x[1..], rest, pat, rep);
        assert [x[0]] + (x[1..] + Replace(rest, pat, rep)) == x + Replace(rest, pat, rep);
      } else {
        assert Replace(rest, pat, rep) == rest;
      }
    }
  }

  /** An occurrence of `pat` at the front is replaced, and the scan resumes after it. */
  lemma ReplaceHead(pat: string, rest: string, rep: string)
    requires |pat| > 0
    ensures Replace(pat + rest, pat, rep) == rep + Replace(rest, pat, rep)
  {
    assert (pat + rest)[..|pat|] == pat && (pat + rest)[|pat|..] == rest;
  }

  /** An occurrence of `pat` between two runs that cannot start it is deleted. */
  lemma ReplaceJoins(x: string, y: string, pat: string)
    requires |pat| > 0
    requires forall k :: 0 <= k < |x| ==> x[k] != pat[0]
    requires forall k :: 0 <= k < |y| ==> y[k] != pat[0]
    ensures Replace(x + pat + y, pat, "") == x + y
  {
    ReplaceUntouched(y, pat, "");
    ReplaceHead(pat, y, "");
    assert Replace(pat + y, pat, "") == y;
    ReplaceSkips(x, pat + y, pat, "");
    assert x + pat + y == x + (pat + y);
  }

  /**
   * Deleting the copy of `[a, b, c]` that sits between `[a, b]` and `[c]` joins
   * those into a new copy: one scan does not remove every occurrence.
   */
  lemma ReplaceRejoins(x: string, y: string, a: char, b: char, c: char)
    requires a != b && a != c
    requires forall k :: 0 <= k < |x| ==> x[k] != a
    requires forall k :: 0 <= k < |y| ==> y[k] != a
    ensures Replace(x + ([a, b] + ([a, b, c] + ([c] + y))), [a, b, c], "") == x + ([a, b, c] + y)
  {
    var pat := [a, b, c];
    var w := [c] + y;
    RejoinTail(y, a, b, c);
    var u := [a] + ([b] + (pat + w));
    assert u[..3][2] == a;
    ReplaceStep(u, pat, "");
    assert u[1..] == [b] + (pat + w);
    ReplaceSkips(x, u, pat, "");
    PrependTwo(a, b, pat + w);
    PrependThree(a, b, c, y);
  }

  /** The scan of `[b, a, b, c, c] + y` keeps `b`, deletes `[a, b, c]` and keeps the rest. */
  lemma RejoinTail(y: string, a: char, b: char, c: char)
    requires a != b && a != c
    requires forall k :: 0 <= k < |y| ==> y[k] != a
    ensures Replace([b] + ([a, b, c] + ([c] + y)), [a, b, c], "") == [b] + ([c] + y)
  {
    var pat := [a, b, c];
    var w := [c] + y;
    forall k | 0 <= k < |w| ensures w[k] != pat[0] {
      if k > 0 { assert w[k] == y[k - 1]; }
    }
    ReplaceUntouched(w, pat, "");
    ReplaceHead(pat, w, "");
    assert Replace(pat + w, pat, "") == w;
    ReplaceSkips([b], pat + w, pat, "");
    assert Replace([b] + (pat + w), pat, "") == [b] + w;
  }

  /** Text none of whose characters can start `pat` is left as it is. */
  lemma ReplaceUntouched(s: string, pat: string, rep: string)
    requires |pat| > 0
    requires forall k :: 0 <= k < |s| ==> s[k] != pat[0]
    ensures Replace(s, pat, rep) == s
  {
    ReplaceSkips(s, [], pat, rep);
    assert s + [] == s && Replace([], pat, rep) == [];
  }

  /** Where `pat` does not start the text, its first character is kept. */
  lemma ReplaceStep(s: string, pat: string, rep: string)
    requires |pat| > 0 && |s| >= |pat| && s[..|pat|] != pat
    ensures Replace(s, pat, rep) == [s[0]] + Replace(s[1..], pat, rep)
  {
  }

  lemma PrependTwo(a: char, b: char, z: string)
    ensures [a, b] + z == [a] + ([b] + z)
  {
  }

  lemma PrependThree(a: char, b: char, c: char, z: string)
    ensures [a] + ([b] + ([c] + z)) == [a, b, c] + z
  {
  }

  /** Deleting a pattern never makes a string longer. */
  lemma {:induction false} ReplaceShortens(s: string, pat: string)
    requires |pat| > 0
    ensures |Replace(s, pat, "")| <= |s|
    decreases |s|
  {
    if |s| >= |pat| {
      if s[..|pat|] == pat {
        ReplaceShortens(s[|pat|..], pat);
      } else {
        ReplaceShortens(s[1..], pat);
      }
    }
  }

  /**
   * Replacing a single character by "" deletes every copy of it and nothing
   * else: the result's characters are those of `s` less all copies of `c`.
   */
  lemma {:induction false} ReplaceCharDeletes(s: string, c: char)
    ensures multiset(Replace(s, [c], "")) == multiset(s)[c := 0]
    decreases |s|
  {
    if |s| >= 1 {
      assert s == [s[0]] + s[1..];
      ReplaceCharDeletes(s[1..], c);
      if s[..1] == [c] {
        assert s[0] == c;
      }
    } else {
      assert s == [];
    }
  }

  /** After `s.replace(c, "")` the character `c` is gone. */
  lemma ReplaceCharGone(s: string, c: char)
    ensures c !in Replace(s, [c], "")
  {
    ReplaceCharDeletes(s, c);
    assert multiset(Replace(s, [c], ""))[c] == 0;
  }

  /** Every character left by `s.replace(c, "")` was a character of `s`. */
  lemma ReplaceCharFrom(s: string, c: char, x: char)
    requires x in Replace(s, [c], "")
    ensures x in s && x != c
  {
    ReplaceCharDeletes(s, c);
    assert x in multiset(Replace(s, [c], ""));
  }

  // ---------------------------------------------------------------------------
  // str(int) and int(str), base 10
  // ---------------------------------------------------------------------------

  predicate IsDigit(c: char) { '0' <= c <= '9' }

  predicate AllDigits(s: string) {
    forall k :: 0 <= k < |s| ==> IsDigit(s[k])
  }

  function DigitChar(d: nat): (c: char)
    requires d < 10
    ensures IsDigit(c) && c as int - '0' as int == d
  {
    ('0' as int + d) as char
  }

  /** `str(n)` for a non-negative integer: its decimal digits, no leading zeros. */
  function NatToString(n: nat): (s: string)
    ensures |s| > 0 && AllDigits(s)
    ensures s[0] == '0' ==> n == 0
  {
    if n < 10 then [DigitChar(n)] else NatToString(n / 10) + [DigitChar(n % 10)]
  }

  /** `str(i)` for any integer. */
  function IntToString(i: int): string {
    if i < 0 then "-" + NatToString(-i) else NatToString(i)
  }

  /** The value of a string of decimal digits (leading zeros allowed, as `int()` allows them). */
  function DigitsValue(s: string): nat
    requires AllDigits(s)
  {
    if s == [] then 0 else DigitsValue(s[..|s| - 1]) * 10 + (s[|s| - 1] as int - '0' as int)
  }

  /** Reading back what `str(n)` printed gives `n`. */
  lemma {:induction false} DigitsRoundTrip(n: nat)
    ensures DigitsValue(NatToString(n)) == n
  {
    if n >= 10 {
      DigitsRoundTrip(n / 10);
      var s := NatToString(n);
      assert s[..|s| - 1] == NatToString(n / 10);
    }
  }

  /** Distinct integers print differently. */
  lemma NatToStringInjective(m: nat, n: nat)
    requires NatToString(m) == NatToString(n)
    ensures m == n
  {
    DigitsRoundTrip(m);
    DigitsRoundTrip(n);
  }

  /**
   * The body of a base-10 integer literal as `int()` accepts it: digits, with
   * single underscores allowed between two digits.
   */
  predicate IsDigitGroups(s: string) {
    && |s| > 0 && IsDigit(s[0]) && IsDigit(s[|s| - 1])
    && (forall k :: 0 <= k < |s| ==> IsDigit(s[k]) || s[k] == '_')
    && (forall k :: 0 <= k < |s| - 1 ==> !(s[k] == '_' && s[k + 1] == '_'))
  }

  lemma UnderscoresGone(s: string)
    requires forall k :: 0 <= k < |s| ==> IsDigit(s[k]) || s[k] == '_'
    ensures AllDigits(Replace(s, "_", ""))
  {
    var t := Replace(s, "_", "");
    forall k | 0 <= k < |t| ensures IsDigit(t[k]) {
      ReplaceCharFrom(s, '_', t[k]);
    }
  }

  function DigitGroupsValue(s: string): (r: Option<nat>)
    ensures r.Some? <==> IsDigitGroups(s)
  {
    if IsDigitGroups(s) then
      UnderscoresGone(s);
      Some(DigitsValue(Replace(s, "_", "")))
    else None
  }

  /**
   * The whitespace `int()` skips around a number: CPython first turns each
   * non-ASCII whitespace character into ' ' and then skips only ASCII
   * " \t\n\v\f\r", so the separators U+001C to U+001F, which `isspace`
   * accepts, are not skipped.
   */
  predicate IsIntSpace(c: char) {
    IsSpace(c) && !(0x1C <= c as int <= 0x1F)
  }

  /**
   * `int(s)` on ASCII digits: `None` where Python raises `ValueError`.
   * The whitespace around the number must all be whitespace `int()` skips;
   * then one optional sign is read, then digit groups of '0' to '9'.
   */
  function ParseInt(s: string): Option<int> {
    var i := SkipSpace(s, 0);
    var e := TrimEnd(s, i, |s|);
    if exists k :: 0 <= k < |s| && (k < i || e <= k) && !IsIntSpace(s[k]) then None
    else ParseSigned(s[i..e])
  }

  /** The number once the whitespace is gone: one optional sign, then digit groups. */
  function ParseSigned(t: string): Option<int> {
    if |t| > 0 && (t[0] == '-' || t[0] == '+') then
      match DigitGroupsValue(t[1..])
      case Some(v) =>
        var n: int := v;
        Some(if t[0] == '-' then -n else n)
      case None => None
    else
      match DigitGroupsValue(t)
      case Some(v) => Some(v)
      case None => None
  }

  /** A leading file separator makes `int()` raise, though `strip()` would drop it. */
  lemma ParseIntSeparator()
    ensures Strip("\U{1C}5") == "5"
    ensures ParseInt("\U{1C}5") == None
    ensures ParseInt(" 5\n") == Some(5)
  {
    assert SkipSpace("\U{1C}5", 0) == 1;
    assert !IsIntSpace("\U{1C}5"[0]);
    assert SkipSpace(" 5\n", 0) == 1;
    assert TrimEnd(" 5\n", 1, 3) == 2;
    assert " 5\n"[1..2] == "5";
    assert IsDigitGroups("5");
    assert Replace("5", "_", "") == "5";
  }

  /** The digits `str(n)` prints are read back by `int()` as `n`. */
  lemma DigitGroupsRoundTrip(n: nat)
    ensures DigitGroupsValue(NatToString(n)) == Some(n)
  {
    var d := NatToString(n);
    DigitsRoundTrip(n);
    forall k ensures !OccursAt("_", d, k) {
      if 0 <= k && k + 1 <= |d| {
        assert d[k..k + 1] == [d[k]];
      }
    }
    ReplaceAbsent(d, "_", "");
    assert IsDigitGroups(d);
  }

  /** `int(str(i)) == i` for every integer. */
  lemma IntRoundTrip(i: int)
    ensures ParseInt(IntToString(i)) == Some(i)
  {
    var n: nat := if i < 0 then -i else i;
    var d := NatToString(n);
    DigitGroupsRoundTrip(n);
    var s := IntToString(i);
    assert !IsSpace(s[0]) && !IsSpace(s[|s| - 1]);
    ParseIntUnpadded(s);
    if i < 0 {
      assert s[1..] == d;
      assert s[0] == '-';
    } else {
      assert s == d;
      assert s[0] != '-' && s[0] != '+';
    }
  }

  /** Text with no whitespace at either end is read by the sign-and-digits step alone. */
  lemma ParseIntUnpadded(s: string)
    requires s != [] && !IsSpace(s[0]) && !IsSpace(s[|s| - 1])
    ensures ParseInt(s) == ParseSigned(s)
  {
    assert SkipSpace(s, 0) == 0;
    assert TrimEnd(s, 0, |s|) == |s|;
    assert s[0..|s|] == s;
  }

  /** `int()` rejects the empty string. */
  lemma ParseIntEmpty()
    ensures ParseInt("") == None
  {
  }

  // ---------------------------------------------------------------------------
  // os.path.basename and os.path.splitext (POSIX)
  // ---------------------------------------------------------------------------

  /** `s.rfind(c)`: the last index holding `c`, or -1. */
  function RFind(s: string, c: char): (r: int)
    ensures -1 <= r < |s|
    ensures r >= 0 ==> s[r] == c
    ensures forall k :: r < k < |s| ==> s[k] != c
  {
    if s == [] then -1
    else if s[|s| - 1] == c then |s| - 1
    else RFind(s[..|s| - 1], c)
  }

  /** `c` at `i` and nowhere after it: `rfind` finds `i`. */
  lemma RFindAt(s: string, c: char, i: nat)
    requires i < |s| && s[i] == c
    requires forall k :: i < k < |s| ==> s[k] != c
    ensures RFind(s, c) == i
  {
  }

  /** `c` nowhere in `s`: `rfind` gives -1. */
  lemma RFindNone(s: string, c: char)
    requires forall k :: 0 <= k < |s| ==> s[k] != c
    ensures RFind(s, c) == -1
  {
  }

  /** `os.path.basename(p)`: what follows the last '/'. */
  function BaseName(p: string): (r: string)
    ensures |r| <= |p| && r == p[|p| - |r|..]
    ensures forall k :: 0 <= k < |r| ==> r[k] != '/'
    ensures |r| < |p| ==> p[|p| - |r| - 1] == '/'
  {
    p[RFind(p, '/') + 1..]
  }

  /**
   * `p` has an extension in the sense of `os.path.splitext`: its last '.'
   * comes after its last '/', and some character of the last path
   * component before that dot is not a '.' (so ".bashrc" has none).
   */
  predicate HasExtension(p: string) {
    exists d, k :: 0 <= k < d < |p| && p[d] == '.' && p[k] != '.'
      && (forall m :: d < m < |p| ==> p[m] != '.' && p[m] != '/')
      && (forall m :: k <= m < d ==> p[m] != '/')
  }

  /**
   * The root half of `os.path.splitext(p)`: `p` up to its last '.', provided
   * that dot comes after the last '/' and some character other than '.'
   * stands between the two; otherwise `p`.
   */
  function SplitExtRoot(p: string): (r: string)
    ensures |r| <= |p| && r == p[..|r|]
    ensures |r| < |p| <==> RFind(p, '.') > RFind(p, '/') && exists k :: RFind(p, '/') + 1 <= k < RFind(p, '.') && p[k] != '.'
    ensures |r| < |p| ==> |r| == RFind(p, '.')
    ensures forall k :: |r| < k < |p| ==> p[k] != '.' && p[k] != '/'
  {
    var sep := RFind(p, '/');
    var dot := RFind(p, '.');
    if dot > sep && exists k :: sep + 1 <= k < dot && p[k] != '.' then
      p[..dot]
    else p
  }

  /**
   * splitext removes exactly an extension: the root is shorter than `p` iff
   * `p` has one, and then the root ends just before the last '.'.
   */
  lemma SplitExtRootRemoves(p: string)
    ensures |SplitExtRoot(p)| < |p| <==> HasExtension(p)
    ensures HasExtension(p) ==> SplitExtRoot(p) == p[..RFind(p, '.')] && p[RFind(p, '.')] == '.'
  {
    if |SplitExtRoot(p)| < |p| {
      CutIsExtension(p);
    }
    if HasExtension(p) {
      ExtensionIsCut(p);
    }
  }

  /** A cut that splitext makes is at an extension's dot. */
  lemma CutIsExtension(p: string)
    requires |SplitExtRoot(p)| < |p|
    ensures HasExtension(p)
  {
    var sep, dot := RFind(p, '/'), RFind(p, '.');
    var k :| sep + 1 <= k < dot && p[k] != '.';
    assert 0 <= k < dot < |p| && p[dot] == '.' && p[k] != '.'
      && (forall m :: dot < m < |p| ==> p[m] != '.' && p[m] != '/')
      && (forall m :: k <= m < dot ==> p[m] != '/');
  }

  /** An extension is cut off at its dot, which is the last '.'. */
  lemma ExtensionIsCut(p: string)
    requires HasExtension(p)
    ensures |SplitExtRoot(p)| < |p|
    ensures SplitExtRoot(p) == p[..RFind(p, '.')] && p[RFind(p, '.')] == '.'
  {
    var d, k :| 0 <= k < d < |p| && p[d] == '.' && p[k] != '.'
      && (forall m :: d < m < |p| ==> p[m] != '.' && p[m] != '/')
      && (forall m :: k <= m < d ==> p[m] != '/');
    RFindAt(p, '.', d);
    assert RFind(p, '/') + 1 <= k < RFind(p, '.') && p[k] != '.';
  }

  /** splitext leaves a non-empty root whenever it strips an extension. */
  lemma SplitExtRootNonEmpty(p: string)
    requires |SplitExtRoot(p)| < |p|
    ensures |SplitExtRoot(p)| > 0
  {
  }
}
