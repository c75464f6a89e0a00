/**
 * Text operations the two scripts borrow from Python and pandas: `str.strip`,
 * `str.replace`, `in`, `startswith`, `re.split` on a character class, the
 * regular expression `(\d+)`, and the number conversions `str`, `int`, `float`
 * and `pd.to_numeric`. Strings are sequences of Unicode scalar values.
 */
module Strings {
  import opened Wrappers

  /** Python's `str.isspace()` on one character: exactly the characters `str.strip()` removes. */
  predicate IsSpace(c: char)
  {
    c == ' ' || '\t' <= c <= '\r' || '\U{1C}' <= c <= '\U{1F}' || c == '\U{85}' || c == '\U{A0}'
    || c == '\U{1680}' || '\U{2000}' <= c <= '\U{200A}' || c == '\U{2028}' || c == '\U{2029}'
    || c == '\U{202F}' || c == '\U{205F}' || c == '\U{3000}'
  }

  /** The ideographic (full-width) space, U+3000. */
  const FullWidthSpace: char := '\U{3000}'

  /** An ASCII decimal digit. */
  predicate IsDigit(c: char)
  {
    '0' <= c <= '9'
  }

  predicate AllDigits(s: string)
  {
    forall i :: 0 <= i < |s| ==> IsDigit(s[i])
  }

  /** No character of `s` belongs to `cs`. */
  predicate Free(s: string, cs: set<char>)
  {
    forall c :: c in s ==> c !in cs
  }

  // ---------------------------------------------------------------- strip

  /** Number of whitespace characters at the start of `s`. */
  function LeadingSpaces(s: string): (n: nat)
    ensures n <= |s|
    ensures forall i :: 0 <= i < n ==> IsSpace(s[i])
    ensures n < |s| ==> !IsSpace(s[n])
  {
    if s == [] || !IsSpace(s[0]) then 0 else 1 + LeadingSpaces(s[1..])
  }

  /** Number of whitespace characters at the end of `s`. */
  function TrailingSpaces(s: string): (n: nat)
    ensures n <= |s|
    ensures forall i :: |s| - n <= i < |s| ==> IsSpace(s[i])
    ensures n < |s| ==> !IsSpace(s[|s| - 1 - n])
  {
    if s == [] || !IsSpace(s[|s| - 1]) then 0 else 1 + TrailingSpaces(s[..|s| - 1])
  }

  /** Neither end of `s` is whitespace. */
  predicate Stripped(s: string)
  {
    s == [] || (!IsSpace(s[0]) && !IsSpace(s[|s| - 1]))
  }

  /**
   * Python's `str.strip()` with no argument: the slice of `s` that remains once
   * the whitespace at both ends is removed.
   */
  function Strip(s: string): (r: string)
    ensures Stripped(r)
    ensures forall c :: c in r ==> c in s
  {
    var a := LeadingSpaces(s);
    var b := TrailingSpaces(s[a..]);
    var r := s[a..|s| - b];
    assert r != [] ==> r[0] == s[a] && a < |s|;
    assert r != [] ==> r[|r| - 1] == s[a..][|s| - a - 1 - b];
    r
  }

  /** `r` is the slice of `s` at `i`, and only whitespace lies before and after it. */
  predicate CutAt(s: string, r: string, i: int)
  {
    && 0 <= i <= |s| - |r| && OccursAt(s, r, i)
    && (forall k :: 0 <= k < i ==> IsSpace(s[k]))
    && (forall k :: i + |r| <= k < |s| ==> IsSpace(s[k]))
  }

  /** Stripping cuts whitespace, and only whitespace, from each end. */
  lemma StripCutsSpaces(s: string)
    ensures exists i :: CutAt(s, Strip(s), i)
  {
    var a := LeadingSpaces(s);
    var b := TrailingSpaces(s[a..]);
    assert Strip(s) == s[a..|s| - b];
    assert CutAt(s, Strip(s), a);
  }

  lemma StripOfStripped(s: string)
    requires Stripped(s)
    ensures Strip(s) == s
  {
  }

  // ---------------------------------------------------------------- replace

  /** `s` with every character of `cs` removed (`str.replace(c, "")` for each `c` in `cs`). */
  function Without(s: string, cs: set<char>): (r: string)
    ensures Free(r, cs)
    ensures forall c :: c in r ==> c in s
    ensures forall c :: c in s && c !in cs ==> c in r
    ensures |r| == |s| - CountIn(s, cs)
  {
    if s == [] then []
    else (if s[0] in cs then [] else [s[0]]) + Without(s[1..], cs)
  }

  /** One character is dropped when it is in `cs` and kept otherwise. */
  lemma WithoutOne(c: char, cs: set<char>)
    ensures Without([c], cs) == if c in cs then [] else [c]
  {
    assert [c][1..] == [];
  }

  /** Removing works character by character: the kept characters stay in order. */
  lemma {:induction false} WithoutAppend(a: string, b: string, cs: set<char>)
    ensures Without(a + b, cs) == Without(a, cs) + Without(b, cs)
  {
    if a == [] {
      assert a + b == b;
    } else {
      assert (a + b)[0] == a[0];
      assert (a + b)[1..] == a[1..] + b;
      WithoutAppend(a[1..], b, cs);
    }
  }

  lemma {:induction false} WithoutFree(s: string, cs: set<char>)
    requires Free(s, cs)
    ensures Without(s, cs) == s
  {
    if s != [] {
      assert s[0] in s;
      assert forall c :: c in s[1..] ==> c in s;
      WithoutFree(s[1..], cs);
    }
  }

  // ---------------------------------------------------------------- search

  /** `w` occurs in `s` at index `i`. */
  predicate OccursAt(s: string, w: string, i: int)
  {
    0 <= i <= |s| - |w| && s[i..i + |w|] == w
  }

  /** Python's `w in s`: `w` occurs in `s` as a contiguous substring. */
  predicate Contains(s: string, w: string)
  {
    exists i :: 0 <= i <= |s| - |w| && OccursAt(s, w, i)
  }

  /** Python's `s.startswith(p)`. */
  predicate StartsWith(s: string, p: string)
  {
    |p| <= |s| && s[..|p|] == p
  }

  /** Index of the first `c` in `s`, or `|s|` when there is none. */
  function IndexOf(s: string, c: char): (i: nat)
    ensures i <= |s|
    ensures forall k :: 0 <= k < i ==> s[k] != c
    ensures i < |s| ==> s[i] == c
  {
    if s == [] || s[0] == c then 0 else 1 + IndexOf(s[1..], c)
  }

  /** Python's `s.split(c, 1)[1]`: the text after the first `c`. */
  function AfterFirst(s: string, c: char): (r: string)
    requires c in s
    ensures exists i :: 0 <= i < |s| && s[i] == c && Free(s[..i], {c}) && r == s[i + 1..]
  {
    var i := IndexOf(s, c);
    assert Free(s[..i], {c});
    s[i + 1..]
  }

  /** A separator that occurs in neither head marks where both heads end. */
  lemma SeparatedHeads(x: string, u: string, y: string, v: string, sep: char)
    requires sep !in x && sep !in y
    requires x + [sep] + u == y + [sep] + v
    ensures x == y && u == v
  {
    var s := x + [sep] + u;
    assert forall k :: 0 <= k < |x| ==> s[k] == x[k];
    assert forall k :: 0 <= k < |y| ==> s[k] == y[k];
    assert s[|x|] == sep && s[|y|] == sep;
    assert |x| == |y|;
    assert x == s[..|x|] && y == s[..|y|];
    assert u == s[|x| + 1..];
  }

  /** A separator that occurs in neither tail marks where both tails begin. */
  lemma SeparatedTails(u: string, x: string, v: string, y: string, sep: char)
    requires sep !in x && sep !in y
    requires u + [sep] + x == v + [sep] + y
    ensures x == y && u == v
  {
    var s := u + [sep] + x;
    assert forall k :: |u| < k < |s| ==> s[k] == x[k - |u| - 1];
    assert forall k :: |v| < k < |s| ==> s[k] == y[k - |v| - 1];
    assert s[|u|] == sep && s[|v|] == sep;
    assert |u| == |v|;
    assert x == s[|s| - |x|..] && y == s[|s| - |y|..];
    assert u == s[..|u|];
  }

  // ---------------------------------------------------------------- split

  /** Number of characters of `s` that belong to `cs`. */
  function CountIn(s: string, cs: set<char>): nat
  {
    if s == [] then 0 else (if s[0] in cs then 1 else 0) + CountIn(s[1..], cs)
  }

  function Concat(ps: seq<string>): string
  {
    if ps == [] then [] else ps[0] + Concat(ps[1..])
  }

  /** `re.split("[" + cs + "]", s)`: the pieces between delimiters, in order. */
  function Split(s: string, cs: set<char>): (ps: seq<string>)
    ensures |ps| == CountIn(s, cs) + 1
  {
    if s == [] then [""]
    else
      var rest := Split(s[1..], cs);
      if s[0] in cs then [""] + rest else [[s[0]] + rest[0]] + rest[1..]
  }

  /**
   * There is one piece more than there are delimiters, no piece holds a
   * delimiter, and the pieces put back together give `s` without its delimiters.
   */
  lemma {:induction false} SplitSpec(s: string, cs: set<char>)
    ensures |Split(s, cs)| == CountIn(s, cs) + 1
    ensures forall k :: 0 <= k < |Split(s, cs)| ==> Free(Split(s, cs)[k], cs)
    ensures Concat(Split(s, cs)) == Without(s, cs)
  {
    if s != [] {
      SplitSpec(s[1..], cs);
      var rest := Split(s[1..], cs);
      if s[0] !in cs {
        var r := [[s[0]] + rest[0]] + rest[1..];
        assert r[1..] == rest[1..];
        assert Concat(rest) == rest[0] + Concat(rest[1..]);
        assert forall k :: 1 <= k < |r| ==> r[k] == rest[k];
      } else {
        var r := [""] + rest;
        assert forall k :: 1 <= k < |r| ==> r[k] == rest[k - 1];
      }
    }
  }

  /** One piece stripped: a term, or nothing when the piece is blank. */
  function Term(piece: string): seq<string>
  {
    if Strip(piece) == [] then [] else [Strip(piece)]
  }

  /** The pieces stripped, the empty ones discarded, in their order. */
  function NonEmptyStripped(ps: seq<string>): seq<string>
  {
    if ps == [] then [] else Term(ps[0]) + NonEmptyStripped(ps[1..])
  }

  /** A search term: nonempty, stripped, and free of the characters `cs`. */
  predicate IsTerm(t: string, cs: set<char>)
  {
    t != [] && Stripped(t) && Free(t, cs)
  }

  /** A piece free of `cs` gives at most one term. */
  lemma TermOfFree(piece: string, cs: set<char>)
    requires Free(piece, cs)
    ensures |Term(piece)| <= 1
    ensures forall k :: 0 <= k < |Term(piece)| ==> IsTerm(Term(piece)[k], cs)
  {
  }

  /**
   * There are no more terms than pieces, and each term is nonempty, stripped
   * and free of the characters the pieces are free of.
   */
  lemma {:induction false} NonEmptyStrippedSpec(ps: seq<string>, cs: set<char>)
    requires forall j :: 0 <= j < |ps| ==> Free(ps[j], cs)
    ensures |NonEmptyStripped(ps)| <= |ps|
    ensures forall k :: 0 <= k < |NonEmptyStripped(ps)| ==> IsTerm(NonEmptyStripped(ps)[k], cs)
  {
    if ps != [] {
      var h, tail := Term(ps[0]), ps[1..];
      assert forall j :: 0 <= j < |tail| ==> tail[j] == ps[j + 1];
      NonEmptyStrippedSpec(tail, cs);
      TermOfFree(ps[0], cs);
      TermsAppend(h, NonEmptyStripped(tail), cs);
    }
  }

  lemma TermsAppend(h: seq<string>, rest: seq<string>, cs: set<char>)
    requires forall k :: 0 <= k < |h| ==> IsTerm(h[k], cs)
    requires forall k :: 0 <= k < |rest| ==> IsTerm(rest[k], cs)
    ensures forall k :: 0 <= k < |h + rest| ==> IsTerm((h + rest)[k], cs)
  {
  }

  /**
   * `[k.strip() for k in re.split("[" + cs + "]", s) if k.strip()]`: the
   * search terms typed in one text box.
   */
  function Keywords(s: string, cs: set<char>): (ks: seq<string>)
    ensures |ks| <= CountIn(s, cs) + 1
    ensures forall k :: 0 <= k < |ks| ==> ks[k] != [] && Stripped(ks[k]) && Free(ks[k], cs)
  {
    var ps := Split(s, cs);
    SplitSpec(s, cs);
    NonEmptyStrippedSpec(ps, cs);
    var ks := NonEmptyStripped(ps);
    assert forall k :: 0 <= k < |ks| ==> IsTerm(ks[k], cs);
    ks
  }

  /** A delimiter in front adds an empty first piece. */
  lemma SplitConsDelimiter(x: char, t: string, cs: set<char>)
    requires x in cs
    ensures Split([x] + t, cs) == [""] + Split(t, cs)
  {
    assert ([x] + t)[0] == x && ([x] + t)[1..] == t;
  }

  /** Any other character in front is prepended to the first piece. */
  lemma SplitConsOther(x: char, t: string, cs: set<char>)
    requires x !in cs
    ensures Split([x] + t, cs) == [[x] + Split(t, cs)[0]] + Split(t, cs)[1..]
  {
    assert ([x] + t)[0] == x && ([x] + t)[1..] == t;
  }

  /** Splitting at one delimiter splits the pieces: the order of the text is kept. */
  lemma {:induction false} SplitAtDelimiter(a: string, c: char, b: string, cs: set<char>)
    requires c in cs
    ensures Split(a + [c] + b, cs) == Split(a, cs) + Split(b, cs)
  {
    if a == [] {
      assert a + [c] + b == [c] + b;
      SplitConsDelimiter(c, b, cs);
    } else {
      var x, a1 := a[0], a[1..];
      var t := a1 + [c] + b;
      assert a + [c] + b == [x] + t;
      assert a == [x] + a1;
      SplitAtDelimiter(a1, c, b, cs);
      if x in cs {
        SplitDelimiterAppend(x, t, a1, cs, Split(a1, cs), Split(b, cs));
      } else {
        SplitOtherAppend(x, t, a1, cs, Split(a1, cs), Split(b, cs));
      }
    }
  }

  /** The inductive step of `SplitAtDelimiter` when the first character is a delimiter. */
  lemma SplitDelimiterAppend(x: char, t: string, a: string, cs: set<char>, p: seq<string>, q: seq<string>)
    requires x in cs
    requires Split(t, cs) == p + q
    requires p == Split(a, cs)
    ensures Split([x] + t, cs) == Split([x] + a, cs) + q
  {
    SplitConsDelimiter(x, t, cs);
    SplitConsDelimiter(x, a, cs);
    assert [""] + (p + q) == ([""] + p) + q;
  }

  /** The inductive step of `SplitAtDelimiter` when the first character is not a delimiter. */
  lemma SplitOtherAppend(x: char, t: string, a: string, cs: set<char>, p: seq<string>, q: seq<string>)
    requires x !in cs
    requires Split(t, cs) == p + q
    requires p == Split(a, cs)
    ensures Split([x] + t, cs) == Split([x] + a, cs) + q
  {
    SplitConsOther(x, t, cs);
    SplitConsOther(x, a, cs);
    SplitSpec(a, cs);
    PrependToFirst([x], p, q);
  }

  /** Prepending to the first piece of `p + q` prepends to the first piece of `p`. */
  lemma PrependToFirst(w: string, p: seq<string>, q: seq<string>)
    requires p != []
    ensures [w + (p + q)[0]] + (p + q)[1..] == ([w + p[0]] + p[1..]) + q
  {
    assert (p + q)[0] == p[0];
    assert (p + q)[1..] == p[1..] + q;
  }

  lemma {:induction false} NonEmptyStrippedAppend(p: seq<string>, q: seq<string>)
    ensures NonEmptyStripped(p + q) == NonEmptyStripped(p) + NonEmptyStripped(q)
  {
    if p == [] {
      assert p + q == q;
    } else {
      assert (p + q)[0] == p[0];
      assert (p + q)[1..] == p[1..] + q;
      NonEmptyStrippedAppend(p[1..], q);
    }
  }

  /** The terms before a delimiter come before the terms after it. */
  lemma KeywordsAtDelimiter(a: string, c: char, b: string, cs: set<char>)
    requires c in cs
    ensures Keywords(a + [c] + b, cs) == Keywords(a, cs) + Keywords(b, cs)
  {
    SplitAtDelimiter(a, c, b, cs);
    NonEmptyStrippedAppend(Split(a, cs), Split(b, cs));
  }

  /** A text without delimiters is one term, its stripped self, unless that is empty. */
  lemma {:induction false} KeywordsOfFree(s: string, cs: set<char>)
    requires Free(s, cs)
    ensures Keywords(s, cs) == if Strip(s) == [] then [] else [Strip(s)]
  {
    SplitOfFree(s, cs);
    assert [s][0] == s && [s][1..] == [];
    assert NonEmptyStripped([s]) == Term(s) + NonEmptyStripped([]);
  }

  lemma {:induction false} SplitOfFree(s: string, cs: set<char>)
    requires Free(s, cs)
    ensures Split(s, cs) == [s]
  {
    if s != [] {
      assert s[0] in s;
      assert forall c :: c in s[1..] ==> c in s;
      SplitOfFree(s[1..], cs);
      assert [s[0]] + s[1..] == s;
    }
  }

  // ---------------------------------------------------------------- digit runs

  /** Length of the run of digits at the start of `s`. */
  function DigitPrefix(s: string): (n: nat)
    ensures n <= |s| && AllDigits(s[..n])
    ensures n < |s| ==> !IsDigit(s[n])
  {
    if s == [] || !IsDigit(s[0]) then 0
    else
      var n := 1 + DigitPrefix(s[1..]);
      assert s[..n] == [s[0]] + s[1..][..n - 1];
      n
  }

  /** Index of the first digit of `s`, or `|s|` when there is none. */
  function FirstDigit(s: string): (i: nat)
    ensures i <= |s|
    ensures forall k :: 0 <= k < i ==> !IsDigit(s[k])
    ensures i < |s| ==> IsDigit(s[i])
  {
    if s == [] || IsDigit(s[0]) then 0 else 1 + FirstDigit(s[1..])
  }

  /** `d` is the first maximal run of digits of `s`, and it starts at `i`. */
  predicate FirstRunAt(s: string, i: nat, d: string)
  {
    && d != []
    && AllDigits(d)
    && i + |d| <= |s|
    && s[i..i + |d|] == d
    && (forall k :: 0 <= k < i ==> !IsDigit(s[k]))
    && (i + |d| == |s| || !IsDigit(s[i + |d|]))
  }

  /** What `str.extract(r"(\d+)")` captures: the first maximal digit run, absent when `s` has no digit. */
  function FirstDigitRun(s: string): (r: Option<string>)
    ensures r.None? <==> forall k :: 0 <= k < |s| ==> !IsDigit(s[k])
    ensures r.Some? ==> exists i :: FirstRunAt(s, i, r.value)
  {
    var i := FirstDigit(s);
    if i == |s| then None
    else
      var n := DigitPrefix(s[i..]);
      assert s[i..][..n] == s[i..i + n];
      assert FirstRunAt(s, i, s[i..i + n]);
      Some(s[i..i + n])
  }

  /** There is only one first maximal digit run. */
  lemma FirstRunUnique(s: string, i: nat, d: string, j: nat, e: string)
    requires FirstRunAt(s, i, d) && FirstRunAt(s, j, e)
    ensures i == j && d == e
  {
    assert forall k :: 0 <= k < |d| ==> s[i + k] == d[k];
    assert forall k :: 0 <= k < |e| ==> s[j + k] == e[k];
    assert IsDigit(s[i]) && IsDigit(s[j]);
    assert i == j;
    assert s[i..i + |d|] == d && s[j..j + |e|] == e;
  }

  // ---------------------------------------------------------------- numbers

  function DigitValue(c: char): nat
    requires IsDigit(c)
  {
    c as int - '0' as int
  }

  function DigitChar(n: nat): (c: char)
    requires n < 10
    ensures IsDigit(c) && DigitValue(c) == n
  {
    ('0' as int + n) as char
  }

  /** The number a run of decimal digits denotes (leading zeros allowed). */
  function DigitsValue(d: string): nat
    requires AllDigits(d)
  {
    if d == [] then 0 else 10 * DigitsValue(d[..|d| - 1]) + DigitValue(d[|d| - 1])
  }

  /** Python's `str(n)` for a natural number: its decimal digits without leading zeros. */
  function NatToString(n: nat): (s: string)
    ensures s != [] && AllDigits(s)
    ensures DigitsValue(s) == n
    ensures s[0] == '0' ==> s == "0"
  {
    if n < 10 then [DigitChar(n)]
    else
      var s := NatToString(n / 10) + [DigitChar(n % 10)];
      assert s[..|s| - 1] == NatToString(n / 10);
      s
  }

  lemma NatToStringInjective(m: nat, n: nat)
    requires NatToString(m) == NatToString(n)
    ensures m == n
  {
  }

  /** Python's `str(i)` for an integer. */
  function IntToString(i: int): (s: string)
    ensures ParseInt(s) == Some(i)
    ensures i >= 0 ==> s == NatToString(i)
    ensures i < 0 ==> s == "-" + NatToString(-i)
  {
    if i < 0 then
      var s := "-" + NatToString(-i);
      assert s[1..] == NatToString(-i);
      s
    else NatToString(i)
  }

  /** What `int(s)` accepts: an optionally signed, nonempty run of ASCII digits. */
  predicate IsIntNumeral(s: string)
  {
    || (s != [] && AllDigits(s))
    || (|s| >= 2 && (s[0] == '-' || s[0] == '+') && AllDigits(s[1..]))
  }

  /** Python's `int(s)` for an optionally signed run of ASCII digits; `None` where `int` raises. */
  function ParseInt(s: string): (r: Option<int>)
    ensures r.Some? <==> IsIntNumeral(s)
    ensures r.Some? ==> exists k :: 0 <= k < |s| && IsDigit(s[k])
    ensures s != [] && AllDigits(s) ==> r == Some(DigitsValue(s))
    ensures |s| >= 2 && s[0] == '-' && AllDigits(s[1..]) ==> r == Some(-(DigitsValue(s[1..]) as int))
    ensures |s| >= 2 && s[0] == '+' && AllDigits(s[1..]) ==> r == Some(DigitsValue(s[1..]))
  {
    if s != [] && (s[0] == '-' || s[0] == '+') then
      if s[1..] != [] && AllDigits(s[1..]) then
        assert IsDigit(s[1..][0]);
        var v: int := DigitsValue(s[1..]);
        Some(if s[0] == '-' then -v else v)
      else None
    else if s != [] && AllDigits(s) then Some(DigitsValue(s))
    else None
  }

  function Pow10(n: nat): (p: nat)
    ensures p >= 1
  {
    if n == 0 then 1 else 10 * Pow10(n - 1)
  }

  /** The value of the digits after a decimal point: `DigitsValue(f) / 10^|f|`. */
  function Fraction(f: string): real
    requires AllDigits(f)
  {
    DigitsValue(f) as real / Pow10(|f|) as real
  }

  /** `s[p]` is a dot with digits on both sides, and at least one digit. */
  predicate DecimalAt(s: string, p: int)
  {
    && 0 <= p < |s| && s[p] == '.'
    && AllDigits(s[..p]) && AllDigits(s[p + 1..])
    && (0 < p || p + 1 < |s|)
  }

  /** An unsigned decimal numeral: digits, or digits around one dot (`12`, `1.329`, `3.`, `.5`). */
  predicate IsUnsignedNumeral(s: string)
  {
    (s != [] && AllDigits(s)) || exists p :: 0 <= p < |s| && DecimalAt(s, p)
  }

  /** What `float` and `pd.to_numeric` accept here: an unsigned numeral, optionally after a sign. */
  predicate IsNumeral(s: string)
  {
    IsUnsignedNumeral(s) || (s != [] && (s[0] == '-' || s[0] == '+') && IsUnsignedNumeral(s[1..]))
  }

  /** A numeral has only one dot, so the dot of a decimal is the first dot. */
  lemma DecimalAtFirstDot(s: string, p: int)
    requires DecimalAt(s, p)
    ensures IndexOf(s, '.') == p
  {
    assert forall k :: 0 <= k < p ==> s[k] == s[..p][k];
  }

  /** An unsigned numeral starts with a digit or a dot, never with a sign. */
  lemma UnsignedNoSign(s: string)
    requires IsUnsignedNumeral(s)
    ensures s[0] != '-' && s[0] != '+'
  {
    if !(s != [] && AllDigits(s)) {
      var p :| 0 <= p < |s| && DecimalAt(s, p);
      assert p > 0 ==> s[..p][0] == s[0];
    }
  }

  /** An unsigned decimal numeral with an optional fraction: `12`, `1.329`, `3.`, `.5`. */
  function ParseUnsigned(s: string): (r: Option<real>)
    ensures r.Some? <==> IsUnsignedNumeral(s)
    ensures r.Some? ==> exists k :: 0 <= k < |s| && IsDigit(s[k])
  {
    var p := IndexOf(s, '.');
    if p == |s| then
      assert forall q :: !DecimalAt(s, q);
      if s != [] && AllDigits(s) then Some(DigitsValue(s) as real) else None
    else
      var whole, fraction := s[..p], s[p + 1..];
      assert !AllDigits(s) by {
        assert !IsDigit(s[p]);
      }
      assert forall q :: DecimalAt(s, q) ==> q == p by {
        forall q | DecimalAt(s, q) ensures q == p {
          DecimalAtFirstDot(s, q);
        }
      }
      if AllDigits(whole) && AllDigits(fraction) && (whole != [] || fraction != []) then
        assert DecimalAt(s, p);
        assert whole != [] ==> s[0] == whole[0];
        assert fraction != [] ==> s[p + 1] == fraction[0];
        Some(DigitsValue(whole) as real + Fraction(fraction))
      else
        assert !DecimalAt(s, p);
        None
  }

  /**
   * Python's `float(s)` and `pd.to_numeric(s, errors="coerce")` on an
   * optionally signed decimal numeral; `None` where they raise or give NaN.
   */
  function ParseNumber(s: string): (r: Option<real>)
    ensures r.Some? <==> IsNumeral(s)
    ensures s != [] && AllDigits(s) ==> r == Some(DigitsValue(s) as real)
    ensures r.Some? ==> exists k :: 0 <= k < |s| && IsDigit(s[k])
  {
    if s != [] && (s[0] == '-' || s[0] == '+') then
      assert !IsDigit(s[0]);
      assert !IsUnsignedNumeral(s) by {
        if IsUnsignedNumeral(s) {
          UnsignedNoSign(s);
        }
      }
      match ParseUnsigned(s[1..])
      case None => None
      case Some(v) =>
        var k :| 0 <= k < |s[1..]| && IsDigit(s[1..][k]);
        assert IsDigit(s[k + 1]);
        Some(if s[0] == '-' then -v else v)
    else
      assert AllDigits(s) ==> IndexOf(s, '.') == |s|;
      ParseUnsigned(s)
  }

  /** The value of a numeral with a dot at `p`: the whole part plus the fraction digits over a power of ten. */
  lemma ParseUnsignedAt(s: string, p: int)
    requires DecimalAt(s, p)
    ensures ParseUnsigned(s) == Some(DigitsValue(s[..p]) as real + Fraction(s[p + 1..]))
  {
    DecimalAtFirstDot(s, p);
  }

  /** A signless numeral with a dot at `p` is read as its unsigned value. */
  lemma ParseNumberAt(s: string, p: int)
    requires DecimalAt(s, p)
    ensures ParseNumber(s) == Some(DigitsValue(s[..p]) as real + Fraction(s[p + 1..]))
  {
    assert !IsDigit(s[p]);
    UnsignedNoSign(s);
    ParseUnsignedAt(s, p);
  }

  /** `w.f` with digit runs `w` and `f`, not both empty, denotes `w` plus the fraction `f / 10^|f|`. */
  lemma ParseNumberDecimal(w: string, f: string)
    requires AllDigits(w) && AllDigits(f) && (w != [] || f != [])
    ensures ParseNumber(w + "." + f) == Some(DigitsValue(w) as real + Fraction(f))
  {
    JoinedAtDot(w, f);
    ParseNumberParts(w + "." + f, |w|, w, f);
  }

  /** `ParseNumberAt` with the two digit runs around the dot named. */
  lemma ParseNumberParts(s: string, p: int, w: string, f: string)
    requires DecimalAt(s, p) && s[..p] == w && s[p + 1..] == f
    ensures ParseNumber(s) == Some(DigitsValue(w) as real + Fraction(f))
  {
    ParseNumberAt(s, p);
  }

  /** `1.329`, an item number of the sheet, is the number 1.329. */
  lemma ParseDecimalExample()
    ensures ParseNumber("1.329") == Some(1.329)
  {
    var s := "1.329";
    assert s[..1] == "1" && s[2..] == "329";
    assert DecimalAt(s, 1);
    ParseNumberParts(s, 1, "1", "329");
    assert DigitsValue("1") == 1 by {
      assert "1"[..0] == "";
    }
    FractionExample();
  }

  /** The fraction digits `329` stand for 0.329. */
  lemma FractionExample()
    ensures Fraction("329") == 0.329
  {
    assert DigitsValue("329") == 329 by {
      assert "329"[..2] == "32" && "32"[..1] == "3" && "3"[..0] == "";
    }
    assert Pow10(3) == 1000 by {
      assert Pow10(1) == 10 && Pow10(2) == 100;
    }
  }

  /** `-12` is the number -12. */
  lemma ParseSignedExample()
    ensures ParseNumber("-12") == Some(-12.0)
  {
    ParseNumberSign('-', "12");
    assert ['-'] + "12" == "-12";
    assert DigitsValue("12") == 12 by {
      assert "12"[..1] == "1" && "1"[..0] == "";
    }
  }

  /** `分析表33`, an item number of the sheet, is not a number. */
  lemma ParseTextExample()
    ensures ParseNumber("分析表33") == None
  {
    var t := "分析表33";
    assert !IsDigit(t[0]) && t[0] != '.';
    forall p | 0 <= p < |t| ensures !DecimalAt(t, p) {
      if p > 0 {
        assert t[..p][0] == t[0];
      }
    }
  }

  lemma JoinedAtDot(w: string, f: string)
    requires AllDigits(w) && AllDigits(f) && (w != [] || f != [])
    ensures (w + "." + f)[..|w|] == w && (w + "." + f)[|w| + 1..] == f
    ensures DecimalAt(w + "." + f, |w|)
  {
    var s := w + "." + f;
    assert s[..|w|] == w && s[|w| + 1..] == f && s[|w|] == '.';
  }

  /** A sign in front of an unsigned text negates its value for `-` and keeps it for `+`. */
  lemma ParseNumberSign(sign: char, t: string)
    requires sign == '-' || sign == '+'
    requires t == [] || (t[0] != '-' && t[0] != '+')
    ensures ParseNumber([sign] + t) == match ParseNumber(t)
                                       case None => None
                                       case Some(v) => Some(if sign == '-' then -v else v)
  {
    assert ([sign] + t)[1..] == t;
  }

  lemma ParseNatToString(n: nat)
    ensures ParseNumber(NatToString(n)) == Some(n as real)
  {
  }
}
