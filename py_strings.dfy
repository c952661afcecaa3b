/** Models of the Python `str` and `int` operations that the calendar code and the
    intent router rely on: `strip` (with the whitespace set it shares with `\s`), ASCII `lower`, `startswith`, `in`,
    `replace(p, "")`, `split(sep, 1)`, `sep.join`, `int(s)` and `str(n)`.
    Strings are sequences of Unicode scalar values, as Python `str` values are once
    they have been through the UI. */
module PyStrings {

  datatype Option<+T> = None | Some(value: T)

  // ---------------------------------------------------------------------------
  // Characters
  // ---------------------------------------------------------------------------

  /** The characters for which Python's `str.isspace()` holds; `re`'s `\s` on
      `str` patterns and argument-less `str.strip()` use the same set. */
  predicate IsSpace(c: char) {
    var n := c as int;
    (9 <= n <= 13) || (28 <= n <= 32) || n == 0x85 || n == 0xA0 || n == 0x1680 ||
    (0x2000 <= n <= 0x200A) || n == 0x2028 || n == 0x2029 || n == 0x202F ||
    n == 0x205F || n == 0x3000
  }

  predicate IsDigit(c: char) {
    '0' <= c <= '9'
  }

  function DigitValue(c: char): nat
    requires IsDigit(c)
  {
    c as int - '0' as int
  }

  function DigitChar(d: nat): (c: char)
    requires d < 10
    ensures IsDigit(c) && DigitValue(c) == d
  {
    ('0' as int + d) as char
  }

  /** ASCII lower-casing of one character. */
  function LowerChar(c: char): char {
    if 'A' <= c <= 'Z' then (c as int + 32) as char else c
  }

  /** `s.lower()`, restricted to ASCII letters. */
  function Lower(s: string): string {
    seq(|s|, i requires 0 <= i < |s| => LowerChar(s[i]))
  }

  /** A text `lower()` leaves as it is. */
  predicate IsLowerCase(s: string) {
    forall i :: 0 <= i < |s| ==> !('A' <= s[i] <= 'Z')
  }

  /** `lower()` gives a lower-case text of the same length that keeps every
      character other than an upper-case ASCII letter where it was. */
  lemma LowerCases(s: string)
    ensures |Lower(s)| == |s| && IsLowerCase(Lower(s))
    ensures forall i :: 0 <= i < |s| && !('A' <= s[i] <= 'Z') ==> Lower(s)[i] == s[i]
    ensures forall i :: 0 <= i < |s| && 'A' <= s[i] <= 'Z' ==> Lower(s)[i] == (s[i] as int + 32) as char
  {
  }

  /** `lower()` leaves a lower-case text alone. */
  lemma LowerIdle(s: string)
    requires IsLowerCase(s)
    ensures Lower(s) == s
  {
  }

  /** `lower()` works character by character. */
  lemma LowerConcat3(a: string, b: string, c: string)
    ensures Lower(a + b + c) == Lower(a) + Lower(b) + Lower(c)
  {
  }

  lemma LowerConcat(a: string, b: string)
    ensures Lower(a + b) == Lower(a) + Lower(b)
  {
  }

  /** Lower-casing keeps a lower-case prefix in place. */
  lemma LowerKeepsPrefix(s: string, p: string)
    requires StartsWith(s, p) && IsLowerCase(p)
    ensures StartsWith(Lower(s), p)
  {
    forall i | 0 <= i < |p| ensures Lower(s)[i] == p[i] {
      assert s[i] == p[i];
    }
  }

  ghost predicate AllSpace(s: string) {
    forall i :: 0 <= i < |s| ==> IsSpace(s[i])
  }

  // ---------------------------------------------------------------------------
  // strip()
  // ---------------------------------------------------------------------------

  /** `s.lstrip()`: the suffix of `s` left after its leading whitespace. */
  function TrimLeft(s: string): (r: string)
    ensures |r| <= |s| && r == s[|s| - |r|..]
    ensures AllSpace(s[..|s| - |r|])
    ensures r != [] ==> !IsSpace(r[0])
  {
    if s != [] && IsSpace(s[0]) then
      var r := TrimLeft(s[1..]);
      assert s[..|s| - |r|] == [s[0]] + s[1..][..|s| - 1 - |r|];
      r
    else s
  }

  /** `s.rstrip()`: the prefix of `s` left after its trailing whitespace. */
  function TrimRight(s: string): (r: string)
    ensures |r| <= |s| && r == s[..|r|]
    ensures AllSpace(s[|r|..])
    ensures r != [] ==> !IsSpace(r[|r| - 1])
  {
    if s != [] && IsSpace(s[|s| - 1]) then
      var r := TrimRight(s[..|s| - 1]);
      assert s[|r|..] == s[..|s| - 1][|r|..] + [s[|s| - 1]];
      r
    else s
  }

  /** `s.strip()`. */
  function Strip(s: string): (r: string)
    ensures |r| <= |s|
    ensures r != [] ==> !IsSpace(r[0]) && !IsSpace(r[|r| - 1])
  {
    TrimRight(TrimLeft(s))
  }

  /** Stripping only removes characters. */
  lemma StripChars(s: string)
    ensures forall c :: c in Strip(s) ==> c in s
  {
    var l := TrimLeft(s);
    SliceChars(s, |s| - |l|, |s|);
    SliceChars(l, 0, |TrimRight(l)|);
  }

  /** A character that is not in a text is not in the text stripped. */
  lemma StripKeepsOut(s: string, c: char)
    ensures c in Strip(s) ==> c in s
  {
    StripChars(s);
  }

  lemma SliceChars(s: string, i: nat, j: nat)
    requires i <= j <= |s|
    ensures forall c :: c in s[i..j] ==> c in s
  {
    forall c | c in s[i..j] ensures c in s {
      var k :| 0 <= k < j - i && s[i..j][k] == c;
      assert s[i + k] == c;
    }
  }

  /** Strip is exactly "remove the whitespace around the core": whatever
      all-whitespace text surrounds a core without whitespace at its ends,
      stripping returns that core. */
  lemma StripAround(a: string, m: string, b: string)
    requires AllSpace(a) && AllSpace(b)
    requires m != [] ==> !IsSpace(m[0]) && !IsSpace(m[|m| - 1])
    ensures Strip(a + m + b) == m
  {
    assert a + m + b == a + (m + b);
    if m == [] {
      assert AllSpace(a + b) by {
        forall i | 0 <= i < |a + b| ensures IsSpace((a + b)[i]) {
          if i >= |a| {
            assert (a + b)[i] == b[i - |a|];
          }
        }
      }
      assert a + m + b == a + b + [];
      TrimLeftSpaces(a + b, []);
    } else {
      assert (m + b)[0] == m[0];
      TrimLeftSpaces(a, m + b);
      TrimRightSpaces(m, b);
    }
  }

  /** `lstrip()` removes exactly an all-whitespace prefix in front of text
      that does not start with whitespace. */
  lemma {:induction false} TrimLeftSpaces(a: string, x: string)
    requires AllSpace(a)
    requires x != [] ==> !IsSpace(x[0])
    ensures TrimLeft(a + x) == x
  {
    if a == [] {
      assert a + x == x;
    } else {
      assert (a + x)[0] == a[0];
      assert (a + x)[1..] == a[1..] + x;
      TrimLeftSpaces(a[1..], x);
    }
  }

  /** `rstrip()` removes exactly an all-whitespace suffix after text that
      does not end with whitespace. */
  lemma {:induction false} TrimRightSpaces(m: string, b: string)
    requires AllSpace(b)
    requires m != [] ==> !IsSpace(m[|m| - 1])
    ensures TrimRight(m + b) == m
  {
    if b == [] {
      assert m + b == m;
    } else {
      var s := m + b;
      assert s[|s| - 1] == b[|b| - 1];
      assert s[..|s| - 1] == m + b[..|b| - 1];
      TrimRightSpaces(m, b[..|b| - 1]);
    }
  }

  /** Stripping a text with one blank in front gives the text back when its
      ends are not whitespace. */
  lemma StripOneBlank(m: string)
    requires m != [] ==> !IsSpace(m[0]) && !IsSpace(m[|m| - 1])
    ensures Strip(" " + m) == m
  {
    assert AllSpace(" ") && AllSpace([]);
    assert " " + m == " " + m + [];
    StripAround(" ", m, []);
  }

  /** Leading whitespace does not change what `strip()` returns. */
  lemma StripSkipsSpace(c: char, s: string)
    requires IsSpace(c)
    ensures Strip([c] + s) == Strip(s)
  {
    assert ([c] + s)[1..] == s;
  }

  /** Stripping a text whose ends are not whitespace changes nothing. */
  lemma StripIdle(m: string)
    requires m != [] ==> !IsSpace(m[0]) && !IsSpace(m[|m| - 1])
    ensures Strip(m) == m
  {
    assert m == [] + m + [];
    StripAround([], m, []);
  }

  lemma AllSpaceConcat(a: string, b: string)
    requires AllSpace(a) && AllSpace(b)
    ensures AllSpace(a + b)
  {
    forall i | 0 <= i < |a + b| ensures IsSpace((a + b)[i]) {
      if i >= |a| {
        assert (a + b)[i] == b[i - |a|];
      }
    }
  }

  /** Stripping a text with a non-whitespace separator in it strips only
      the outer ends: the leading whitespace of the part before the
      separator and the trailing whitespace of the part after it. */
  lemma StripAroundSeparator(a: string, c: char, b: string)
    requires !IsSpace(c)
    ensures Strip(a + [c] + b) == TrimLeft(a) + [c] + TrimRight(b)
  {
    TrimLeftBeforeSeparator(a, c, b);
    TrimRightAfterSeparator(TrimLeft(a), c, b);
  }

  lemma {:induction false} TrimLeftBeforeSeparator(a: string, c: char, b: string)
    requires !IsSpace(c)
    ensures TrimLeft(a + [c] + b) == TrimLeft(a) + [c] + b
  {
    var s := a + [c] + b;
    if a == [] {
      assert s == [c] + b;
    } else {
      assert s[0] == a[0];
      if IsSpace(a[0]) {
        assert s[1..] == a[1..] + [c] + b;
        TrimLeftBeforeSeparator(a[1..], c, b);
      }
    }
  }

  lemma {:induction false} TrimRightAfterSeparator(x: string, c: char, b: string)
    requires !IsSpace(c)
    ensures TrimRight(x + [c] + b) == x + [c] + TrimRight(b)
  {
    var u := x + [c];
    if b == [] {
      assert u + b == u;
    } else {
      DropLast(u, b);
      if IsSpace(b[|b| - 1]) {
        TrimRightAfterSeparator(x, c, b[..|b| - 1]);
      }
    }
  }

  lemma DropLast(u: string, b: string)
    requires b != []
    ensures (u + b)[|u + b| - 1] == b[|b| - 1]
    ensures (u + b)[..|u + b| - 1] == u + b[..|b| - 1]
  {
  }

  /** `lstrip()` before `strip()` changes nothing. */
  lemma StripAfterTrimLeft(a: string)
    ensures Strip(TrimLeft(a)) == Strip(a)
  {
    var x := TrimLeft(a);
    assert TrimLeft(x) == x;
  }

  lemma SplitAt(s: string, k: int)
    requires 0 <= k <= |s|
    ensures s == s[..k] + s[k..]
  {
  }

  /** `rstrip()` before `strip()` changes nothing. */
  lemma StripAfterTrimRight(b: string)
    ensures Strip(TrimRight(b)) == Strip(b)
  {
    var y := TrimRight(b);
    SplitAt(b, |y|);
    StripDropsTrailing(y, b[|y|..]);
  }

  /** Whitespace after a text that does not end with whitespace is lost to
      `strip()`. */
  lemma StripDropsTrailing(y: string, q: string)
    requires AllSpace(q)
    requires y != [] ==> !IsSpace(y[|y| - 1])
    ensures Strip(y + q) == Strip(y)
  {
    var x := TrimLeft(y);
    var p := y[..|y| - |x|];
    SplitAt(y, |y| - |x|);
    if x == [] {
      assert y == p;
      AllSpaceConcat(y, q);
      StripAllSpace(y + q);
      StripAllSpace(y);
    } else {
      assert x[|x| - 1] == y[|y| - 1];
      StripDropsTrailingCore(y, p, x, q);
    }
  }

  lemma StripDropsTrailingCore(y: string, p: string, x: string, q: string)
    requires y == p + x && AllSpace(p) && AllSpace(q)
    requires x != [] && !IsSpace(x[0]) && !IsSpace(x[|x| - 1])
    ensures Strip(y + q) == x && Strip(y) == x
  {
    assert y + q == p + x + q;
    StripAround(p, x, q);
    assert y == p + x + [];
    StripAround(p, x, []);
  }

  /** A text made of whitespace strips to nothing. */
  lemma StripAllSpace(s: string)
    requires AllSpace(s)
    ensures Strip(s) == []
  {
    assert s == s + [] + [];
    StripAround(s, [], []);
  }

  /** Stripping leaves a prefix whose first and last characters are not
      whitespace in place. */
  lemma StripKeepsPrefix(s: string, p: string)
    requires StartsWith(s, p) && p != []
    requires !IsSpace(p[0]) && !IsSpace(p[|p| - 1])
    ensures StartsWith(Strip(s), p)
    ensures Strip(s) == s[..|Strip(s)|]
  {
    assert s[0] == p[0];
    assert TrimLeft(s) == s;
    var r := TrimRight(s);
    assert s[|p| - 1] == p[|p| - 1];
    assert r[..|p|] == s[..|p|];
  }

  /** When `s` does not start with whitespace, the stripped text starts with
      any prefix `p` of `s` whose first and last characters are not whitespace
      exactly when `s` itself does. */
  lemma StripPrefixIff(s: string, p: string)
    requires s != [] && !IsSpace(s[0])
    requires p != [] && !IsSpace(p[0]) && !IsSpace(p[|p| - 1])
    ensures StartsWith(Strip(s), p) <==> StartsWith(s, p)
  {
    assert TrimLeft(s) == s;
    var r := Strip(s);
    assert r == s[..|r|];
    if StartsWith(s, p) {
      StripKeepsPrefix(s, p);
    }
    if StartsWith(r, p) {
      assert s[..|p|] == r[..|p|];
    }
  }

  // ---------------------------------------------------------------------------
  // startswith, in, replace, split, join
  // ---------------------------------------------------------------------------

  /** `s.startswith(p)`. */
  predicate StartsWith(s: string, p: string) {
    |p| <= |s| && s[..|p|] == p
  }

  /** A text starts with the first character of each of its prefixes. */
  lemma FirstOfPrefix(s: string, p: string)
    requires StartsWith(s, p) && p != []
    ensures s != [] && s[0] == p[0]
  {
    assert s[..|p|][0] == s[0];
  }

  /** Texts whose first characters differ do not start one with the other. */
  lemma FirstCharDiffers(s: string, p: string)
    requires s != [] && p != [] && s[0] != p[0]
    ensures !StartsWith(s, p)
  {
    if |p| <= |s| {
      assert s[..|p|][0] == s[0];
    }
  }

  /** `s[n:]` for a non-negative `n`: empty when `n` is past the end. */
  function Drop(s: string, n: nat): (r: string)
    ensures |r| == if n <= |s| then |s| - n else 0
    ensures r == s[|s| - |r|..]
  {
    if n <= |s| then s[n..] else []
  }

  ghost predicate OccursAt(s: string, p: string, i: int) {
    0 <= i && i + |p| <= |s| && s[i..i + |p|] == p
  }

  /** `p in s`. */
  predicate Contains(s: string, p: string) {
    StartsWith(s, p) || (s != [] && Contains(s[1..], p))
  }

  /** `p in s` holds exactly when `p` occurs in `s` at some position. */
  lemma {:induction false} ContainsIff(s: string, p: string)
    ensures Contains(s, p) <==> exists i :: OccursAt(s, p, i)
  {
    if StartsWith(s, p) {
      assert OccursAt(s, p, 0);
    } else if s != [] {
      ContainsIff(s[1..], p);
      if exists i :: OccursAt(s[1..], p, i) {
        var i :| OccursAt(s[1..], p, i);
        assert s[i + 1..i + 1 + |p|] == s[1..][i..i + |p|];
        assert OccursAt(s, p, i + 1);
      }
      if exists i :: OccursAt(s, p, i) {
        var i :| OccursAt(s, p, i);
        assert i != 0;
        assert s[1..][i - 1..i - 1 + |p|] == s[i..i + |p|];
        assert OccursAt(s[1..], p, i - 1);
      }
    }
  }

  lemma NothingInEmpty(p: string)
    requires p != []
    ensures !Contains([], p)
  {
  }

  /** An occurrence at a known position makes `p in s` true. */
  lemma OccursAtContains(s: string, p: string, i: int)
    requires OccursAt(s, p, i)
    ensures Contains(s, p)
  {
    ContainsIff(s, p);
  }

  /** `s.replace(p, "")`: every non-overlapping occurrence of `p`, found from
      left to right, is removed. The result is never longer, and it is `s`
      itself when `p` does not occur in `s`. */
  function RemoveAll(s: string, p: string): (r: string)
    requires p != []
    ensures |r| <= |s|
    ensures !Contains(s, p) ==> r == s
    decreases |s|
  {
    if s == [] then []
    else if StartsWith(s, p) then RemoveAll(s[|p|..], p)
    else [s[0]] + RemoveAll(s[1..], p)
  }

  /** A text that starts with `p` loses that occurrence first. */
  lemma RemoveAllLeading(p: string, s: string)
    requires p != []
    ensures RemoveAll(p + s, p) == RemoveAll(s, p)
  {
    assert (p + s)[|p|..] == s;
  }

  /** `replace(p, "")` keeps every character in front of the first
      occurrence of `p` and removes that occurrence: when `p` occurs at no
      position inside `a`, `a + p + b` becomes `a` followed by what `b`
      becomes. */
  lemma {:induction false} RemoveAllFirst(a: string, p: string, b: string)
    requires p != []
    requires forall i :: 0 <= i < |a| ==> !OccursAt(a + p + b, p, i)
    ensures RemoveAll(a + p + b, p) == a + RemoveAll(b, p)
  {
    if a == [] {
      assert a + p + b == p + b;
      RemoveAllLeading(p, b);
    } else {
      var t := a[1..] + p + b;
      ConsShape(a, p, b, RemoveAll(b, p));
      RemoveAllStep(a[0], t, p);
      NoOccurrenceInTail(a[0], t, p, |a| - 1);
      RemoveAllFirst(a[1..], p, b);
    }
  }

  lemma ConsShape(a: string, p: string, b: string, r: string)
    requires a != []
    ensures a + p + b == [a[0]] + (a[1..] + p + b)
    ensures [a[0]] + (a[1..] + r) == a + r
  {
  }

  /** A text that does not start with `p` keeps its first character. */
  lemma RemoveAllStep(c: char, t: string, p: string)
    requires p != [] && !OccursAt([c] + t, p, 0)
    ensures RemoveAll([c] + t, p) == [c] + RemoveAll(t, p)
  {
    var s := [c] + t;
    assert s[1..] == t;
    if |p| <= |s| {
      assert s[..|p|] == s[0..0 + |p|];
    }
  }

  /** Occurrences in `t` are occurrences in `[c] + t`, one place later. */
  lemma NoOccurrenceInTail(c: char, t: string, p: string, n: int)
    requires forall i :: 0 <= i < n + 1 ==> !OccursAt([c] + t, p, i)
    ensures forall i :: 0 <= i < n ==> !OccursAt(t, p, i)
  {
    forall i | 0 <= i < n ensures !OccursAt(t, p, i) {
      assert !OccursAt([c] + t, p, i + 1);
      if i + |p| <= |t| {
        assert ([c] + t)[i + 1..i + 1 + |p|] == t[i..i + |p|];
      }
    }
  }

  /** A text whose first characters cannot start `p` contains `p` only
      where what follows them does. */
  lemma {:induction false} ContainsPastPrefix(pre: string, d: string, p: string)
    requires p != [] && p[0] !in pre && !Contains(d, p)
    ensures !Contains(pre + d, p)
  {
    if pre == [] {
      assert pre + d == d;
    } else {
      var s := pre + d;
      assert s[0] == pre[0];
      FirstCharDiffers(s, p);
      assert s[1..] == pre[1..] + d;
      ContainsPastPrefix(pre[1..], d, p);
    }
  }

  /** Every character of `p` occurs in a text that contains `p`; so `p`
      cannot occur in a text that lacks one of its characters. */
  lemma ContainedChars(s: string, p: string, k: int)
    requires 0 <= k < |p|
    ensures Contains(s, p) ==> p[k] in s
  {
    ContainsIff(s, p);
    if Contains(s, p) {
      var i :| OccursAt(s, p, i);
      assert s[i..i + |p|][k] == s[i + k];
    }
  }

  /** `a, b = s.split(sep, 1)`: the text before and after the first `sep`;
      `None` when the unpacking would fail because `sep` does not occur. */
  function SplitOnce(s: string, sep: char): (r: Option<(string, string)>)
    ensures r.None? <==> sep !in s
    ensures r.Some? ==> s == r.value.0 + [sep] + r.value.1 && sep !in r.value.0
  {
    if s == [] then None
    else if s[0] == sep then Some(([], s[1..]))
    else match SplitOnce(s[1..], sep)
      case None => None
      case Some(parts) => Some(([s[0]] + parts.0, parts.1))
  }

  /** The decomposition SplitOnce finds is the only one: splitting
      `a + [sep] + b` with `sep` absent from `a` gives back `a` and `b`. */
  lemma {:induction false} SplitOnceOf(a: string, sep: char, b: string)
    requires sep !in a
    ensures SplitOnce(a + [sep] + b, sep) == Some((a, b))
  {
    var s := a + [sep] + b;
    match SplitOnce(s, sep)
    case Some(parts) =>
      var k := |parts.0|;
      assert s[|a|] == sep && s[k] == sep;
      assert parts.0 == s[..k] == a;
      assert parts.1 == s[k + 1..] == b;
  }

  /** `sep.join(xs)`. */
  function Join(xs: seq<string>, sep: string): string {
    if xs == [] then []
    else if |xs| == 1 then xs[0]
    else xs[0] + sep + Join(xs[1..], sep)
  }

  /** An occurrence in a suffix is an occurrence in the whole text. */
  lemma ContainsAfter(a: string, s: string, p: string)
    requires Contains(s, p)
    ensures Contains(a + s, p)
  {
    ContainsIff(s, p);
    var i :| OccursAt(s, p, i);
    assert (a + s)[|a| + i..|a| + i + |p|] == s[i..i + |p|];
    OccursAtContains(a + s, p, |a| + i);
  }

  /** Every joined piece occurs in the joined text. */
  lemma {:induction false} JoinContainsEach(xs: seq<string>, sep: string, k: int)
    requires 0 <= k < |xs|
    ensures Contains(Join(xs, sep), xs[k])
  {
    if |xs| == 1 {
      assert Join(xs, sep) == xs[0] + [];
      PrefixStarts(xs[0], []);
    } else if k == 0 {
      PrefixStarts(xs[0], sep + Join(xs[1..], sep));
      assert Join(xs, sep) == xs[0] + (sep + Join(xs[1..], sep));
    } else {
      JoinContainsEach(xs[1..], sep, k - 1);
      assert xs[1..][k - 1] == xs[k];
      ContainsAfter(xs[0] + sep, Join(xs[1..], sep), xs[k]);
    }
  }

  /** A text starts with each of its prefixes. */
  lemma PrefixStarts(a: string, b: string)
    ensures StartsWith(a + b, a)
  {
    assert (a + b)[..|a|] == a;
  }

  // ---------------------------------------------------------------------------
  // str(n) and int(s)
  // ---------------------------------------------------------------------------

  /** Decimal digits of a natural number, most significant first, no leading zeros. */
  function NatToString(n: nat): (r: string)
    ensures r != [] && forall i :: 0 <= i < |r| ==> IsDigit(r[i])
    decreases n
  {
    if n < 10 then [DigitChar(n)] else NatToString(n / 10) + [DigitChar(n % 10)]
  }

  /** `str(n)`: an optional minus sign, then digits. */
  function IntToString(n: int): (r: string)
    ensures r != [] && (r[0] == '-' || IsDigit(r[0])) && IsDigit(r[|r| - 1])
  {
    if n < 0 then "-" + NatToString(-n) else NatToString(n)
  }

  /** The body of a base-10 Python integer literal as `int()` accepts it:
      digits, with single underscores allowed between two digits. */
  predicate IsDigitGroups(s: string) {
    && s != [] && IsDigit(s[0]) && IsDigit(s[|s| - 1])
    && (forall i :: 0 <= i < |s| ==> IsDigit(s[i]) || s[i] == '_')
    && (forall i :: 0 <= i < |s| - 1 && s[i] == '_' ==> IsDigit(s[i + 1]))
  }

  /** The value of a run of digits and underscores; underscores are skipped. */
  function DigitsValue(s: string): nat
    requires forall i :: 0 <= i < |s| ==> IsDigit(s[i]) || s[i] == '_'
  {
    if s == [] then 0
    else if s[|s| - 1] == '_' then DigitsValue(s[..|s| - 1])
    else 10 * DigitsValue(s[..|s| - 1]) + DigitValue(s[|s| - 1])
  }

  /** `int(s)` on an already stripped string: an optional sign followed by
      digit groups; `None` where Python raises `ValueError`. */
  function ParseInt(s: string): Option<int> {
    if s != [] && (s[0] == '+' || s[0] == '-') then
      var body := s[1..];
      if IsDigitGroups(body) then
        Some(if s[0] == '-' then -(DigitsValue(body) as int) else DigitsValue(body))
      else None
    else if IsDigitGroups(s) then Some(DigitsValue(s))
    else None
  }

  lemma {:induction false} NatToStringValue(n: nat)
    ensures DigitsValue(NatToString(n)) == n
    decreases n
  {
    var r := NatToString(n);
    if n >= 10 {
      NatToStringValue(n / 10);
      assert r[..|r| - 1] == NatToString(n / 10);
    }
  }

  /** `int(str(n)) == n` for every Python integer. */
  lemma ParseIntToString(n: int)
    ensures ParseInt(IntToString(n)) == Some(n)
  {
    if n < 0 {
      ParseNegativeNat(-n);
    } else {
      ParseNat(n);
    }
  }

  lemma ParseNat(m: nat)
    ensures ParseInt(NatToString(m)) == Some(m)
  {
    NatToStringGroups(m);
    NatToStringValue(m);
    ParseUnsigned(NatToString(m));
  }

  lemma ParseNegativeNat(m: nat)
    ensures ParseInt("-" + NatToString(m)) == Some(-(m as int))
  {
    NatToStringGroups(m);
    NatToStringValue(m);
    ParseNegative(NatToString(m));
  }

  lemma ParseUnsigned(s: string)
    requires IsDigitGroups(s)
    ensures ParseInt(s) == Some(DigitsValue(s))
  {
  }

  lemma ParseNegative(s: string)
    requires IsDigitGroups(s)
    ensures ParseInt("-" + s) == Some(-(DigitsValue(s) as int))
  {
    assert ("-" + s)[1..] == s;
  }

  lemma NatToStringGroups(n: nat)
    ensures IsDigitGroups(NatToString(n))
  {
    var s := NatToString(n);
    assert IsDigit(s[0]) && IsDigit(s[|s| - 1]);
  }

  /** Every string `int()` accepts is made of a sign, digits and underscores;
      in particular it contains no whitespace and no comma. */
  lemma ParseIntCharset(s: string)
    ensures ParseInt(s).Some? ==> forall i :: 0 <= i < |s| ==>
      IsDigit(s[i]) || s[i] == '_' || (i == 0 && (s[i] == '+' || s[i] == '-'))
  {
    if ParseInt(s).Some? && s != [] && (s[0] == '+' || s[0] == '-') {
      forall i | 0 < i < |s| ensures IsDigit(s[i]) || s[i] == '_' {
        assert s[i] == s[1..][i - 1];
      }
    }
  }
}
