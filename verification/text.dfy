/**
 * The string operations the two importers rely on: substring search,
 * Python's `strip`, `rsplit(" ", 1)`, `split(sep)[1]` and `capitalize`,
 * Qt's case-insensitive `contains` and `split(sep, SkipEmptyParts)`,
 * and fixed-width decimal numerals (as `%02d` and `%04d` print them).
 */
module Text {
  import opened Wrappers

  // ---------------------------------------------------------------------------
  // Substrings
  // ---------------------------------------------------------------------------

  /** `sub in s` in Python, `s.contains(sub)` in Qt. */
  predicate Contains(s: string, sub: string)
    decreases |s|
  {
    sub <= s || (s != [] && Contains(s[1..], sub))
  }

  /** `Contains` holds exactly when `sub` starts at some position of `s`. */
  lemma {:induction false} ContainsAt(s: string, sub: string)
    decreases |s|
    ensures Contains(s, sub) <==> exists k :: 0 <= k <= |s| && sub <= s[k..]
  {
    if s != [] {
      ContainsAt(s[1..], sub);
      if exists k :: 1 <= k <= |s| && sub <= s[k..] {
        var k :| 1 <= k <= |s| && sub <= s[k..];
        assert s[1..][k - 1..] == s[k..];
      }
      if Contains(s[1..], sub) {
        var k :| 0 <= k <= |s| - 1 && sub <= s[1..][k..];
        assert s[1..][k..] == s[k + 1..];
      }
    } else {
      assert Contains(s, sub) <==> sub <= s[0..];
    }
  }

  /** The index of the first occurrence of `sub` in `s`, if there is one. */
  function FindFirst(s: string, sub: string): (r: Option<nat>)
    decreases |s|
    ensures r.None? <==> !Contains(s, sub)
    ensures r.Some? ==> r.value <= |s| && sub <= s[r.value..]
    ensures r.Some? ==> forall k :: 0 <= k < r.value ==> !(sub <= s[k..])
  {
    if sub <= s then Some(0)
    else if s == [] then None
    else match FindFirst(s[1..], sub)
      case None => None
      case Some(k) =>
        forall j | 1 <= j <= k + 1 ensures s[j..] == s[1..][j - 1..] {}
        Some(k + 1)
  }

  /**
   * Python's `s.split(sep)[1]`: the text between the first and the second
   * occurrence of `sep`, or everything after the first one when there is no
   * second.
   */
  function SecondPiece(s: string, sep: string): (r: string)
    requires sep != [] && Contains(s, sep)
    ensures !Contains(r, sep) && r <= AfterFirst(s, sep)
    ensures var rest := AfterFirst(s, sep); !Contains(rest, sep) ==> r == rest
    ensures var rest := AfterFirst(s, sep); Contains(rest, sep) ==> r == rest[..FindFirst(rest, sep).value]
  {
    UpTo(AfterFirst(s, sep), sep)
  }

  /** The text after the first occurrence of `sep`. */
  function AfterFirst(s: string, sep: string): (rest: string)
    requires Contains(s, sep)
    ensures var k := FindFirst(s, sep).value; k + |sep| <= |s| && rest == s[k + |sep|..]
  {
    var k := FindFirst(s, sep).value;
    s[k + |sep|..]
  }

  /** The longest prefix of `s` that does not contain `sep`. */
  function UpTo(s: string, sep: string): (r: string)
    requires sep != []
    ensures !Contains(r, sep) && r <= s
    ensures !Contains(s, sep) ==> r == s
    ensures Contains(s, sep) ==> r == s[..FindFirst(s, sep).value]
  {
    match FindFirst(s, sep)
    case None => s
    case Some(j) =>
      PrefixBefore(s, sep, j);
      s[..j]
  }

  /** Nothing before the first occurrence of `sep` contains `sep`. */
  lemma PrefixBefore(s: string, sep: string, j: nat)
    requires sep != [] && j <= |s|
    requires forall k :: 0 <= k < j ==> !(sep <= s[k..])
    ensures !Contains(s[..j], sep)
  {
    if Contains(s[..j], sep) {
      ContainsInPrefix(s, sep, j);
    }
  }

  /** An occurrence inside `s[..j]` is an occurrence in `s` that starts before `j`. */
  lemma ContainsInPrefix(s: string, sep: string, j: nat)
    requires sep != [] && j <= |s| && Contains(s[..j], sep)
    ensures exists k :: 0 <= k < j && sep <= s[k..]
  {
    var i := FindFirst(s[..j], sep).value;
    assert s[..j][i..][..|sep|] == s[i..][..|sep|];
  }

  /** A string that lacks the first character of `sub` does not contain `sub`. */
  lemma {:induction false} FirstCharAbsent(s: string, sub: string)
    requires sub != [] && sub[0] !in s
    ensures !Contains(s, sub)
  {
    if s != [] {
      assert sub[0] != s[0];
      assert sub[0] !in s[1..] by {
        forall k | 0 <= k < |s| - 1
          ensures s[1..][k] != sub[0]
        {
          assert s[1..][k] == s[k + 1];
        }
      }
      FirstCharAbsent(s[1..], sub);
    }
  }

  // ---------------------------------------------------------------------------
  // Whitespace and Python's strip()
  // ---------------------------------------------------------------------------

  /** The characters Python's `str.isspace()` accepts. */
  predicate IsSpace(c: char) {
    || c == ' '
    || ('\t' <= c <= '\r')
    || ('\U{1C}' <= c <= '\U{1F}')
    || c == '\U{85}' || c == '\U{A0}' || c == '\U{1680}'
    || ('\U{2000}' <= c <= '\U{200A}')
    || c == '\U{2028}' || c == '\U{2029}' || c == '\U{202F}' || c == '\U{205F}' || c == '\U{3000}'
  }

  predicate AllSpace(s: string) {
    forall k :: 0 <= k < |s| ==> IsSpace(s[k])
  }

  function TrimLeft(s: string): (r: string)
    ensures |r| <= |s| && r == s[|s| - |r|..]
    ensures AllSpace(s[..|s| - |r|])
    ensures r != [] ==> !IsSpace(r[0])
  {
    if s != [] && IsSpace(s[0]) then
      var r := TrimLeft(s[1..]);
      assert s[..|s| - |r|] == [s[0]] + s[1..][..|s| - 1 - |r|];
      r
    else s
  }

  function TrimRight(s: string): (r: string)
    ensures |r| <= |s| && r == s[..|r|]
    ensures AllSpace(s[|r|..])
    ensures r != [] ==> !IsSpace(r[|r| - 1])
  {
    if s != [] && IsSpace(s[|s| - 1]) then
      var r := TrimRight(s[..|s| - 1]);
      assert s[|r|..] == s[..|s| - 1][|r|..] + [s[|s| - 1]];
      r
    else s
  }

  /**
   * Python's `s.strip()`: `s` without its leading and trailing whitespace.
   * The result is empty exactly when `s` is all whitespace, and otherwise
   * starts and ends with a non-space character of `s`.
   */
  function Strip(s: string): (r: string)
    ensures r == [] <==> AllSpace(s)
    ensures r != [] ==> !IsSpace(r[0]) && !IsSpace(r[|r| - 1])
  {
    var l := TrimLeft(s);
    var r := TrimRight(l);
    var i := |s| - |l|;
    if r == [] then
      assert s == s[..i] + l;
      AllSpaceConcat(s[..i], l);
      r
    else
      assert s[i] == r[0];
      r
  }

  /** What `Strip` removes is whitespace at the two ends, and only that. */
  lemma StripCutsEnds(s: string)
    ensures var r := Strip(s);
      exists i :: 0 <= i <= |s| - |r| && r == s[i..i + |r|] && AllSpace(s[..i]) && AllSpace(s[i + |r|..])
  {
    var l := TrimLeft(s);
    var i := |s| - |l|;
    var r := TrimRight(l);
    assert Strip(s) == r;
    assert l == s[i..] && r == l[..|r|];
    assert s[i..i + |r|] == l[..|r|];
    assert s[i + |r|..] == l[|r|..];
  }

  lemma AllSpaceConcat(a: string, b: string)
    requires AllSpace(a) && AllSpace(b)
    ensures AllSpace(a + b)
  {
  }

  // ---------------------------------------------------------------------------
  // Python's rsplit(" ", 1)
  // ---------------------------------------------------------------------------

  /** The index of the last occurrence of `c` in `s`, if there is one. */
  function FindLast(s: string, c: char): (r: Option<nat>)
    ensures r.None? <==> c !in s
    ensures r.Some? ==> r.value < |s| && s[r.value] == c && c !in s[r.value + 1..]
  {
    if s == [] then None
    else if s[|s| - 1] == c then Some(|s| - 1)
    else
      var r := FindLast(s[..|s| - 1], c);
      assert s == s[..|s| - 1] + [s[|s| - 1]];
      if r.Some? then
        assert s[r.value + 1..] == s[..|s| - 1][r.value + 1..] + [s[|s| - 1]];
        r
      else r
  }

  /**
   * Python's `s.rsplit(c, 1)`: two parts around the LAST occurrence of `c`,
   * or `[s]` when `c` does not occur.
   */
  function RSplitOnce(s: string, c: char): (parts: seq<string>)
    ensures |parts| == 2 <==> c in s
    ensures |parts| == 1 <==> c !in s
    ensures |parts| == 1 ==> parts[0] == s
    ensures |parts| == 2 ==> parts[0] + [c] + parts[1] == s && c !in parts[1]
  {
    match FindLast(s, c)
    case None => [s]
    case Some(k) =>
      assert s == s[..k] + [c] + s[k + 1..];
      [s[..k], s[k + 1..]]
  }

  // ---------------------------------------------------------------------------
  // Character classes and case
  // ---------------------------------------------------------------------------

  predicate IsDigit(c: char) {
    '0' <= c <= '9'
  }

  /** Python's `any(c.isdigit() for c in s)`, restricted to ASCII digits. */
  predicate HasDigit(s: string) {
    exists k :: 0 <= k < |s| && IsDigit(s[k])
  }

  function LowerChar(c: char): char {
    if 'A' <= c <= 'Z' then (c as int + 32) as char else c
  }

  function UpperChar(c: char): char {
    if 'a' <= c <= 'z' then (c as int - 32) as char else c
  }

  function Lower(s: string): (r: string)
    ensures |r| == |s|
    ensures forall k :: 0 <= k < |s| ==> r[k] == LowerChar(s[k])
  {
    seq(|s|, k requires 0 <= k < |s| => LowerChar(s[k]))
  }

  /** Qt's `s.contains(sub, Qt::CaseInsensitive)`, folding ASCII letters. */
  predicate ContainsIgnoreCase(s: string, sub: string) {
    Contains(Lower(s), Lower(sub))
  }

  /** Python's `s.capitalize()`: first letter upper case, the rest lower case. */
  function Capitalize(s: string): (r: string)
    ensures |r| == |s|
    ensures r != [] ==> r[0] == UpperChar(s[0])
    ensures forall k :: 1 <= k < |s| ==> r[k] == LowerChar(s[k])
  {
    if s == [] then [] else [UpperChar(s[0])] + Lower(s[1..])
  }

  /** Changing the case of a letter never turns it into whitespace or out of it. */
  lemma CaseKeepsSpace(c: char)
    ensures IsSpace(UpperChar(c)) <==> IsSpace(c)
    ensures IsSpace(LowerChar(c)) <==> IsSpace(c)
  {
  }

  /** Capitalizing a second time changes nothing. */
  lemma CapitalizeIdempotent(s: string)
    ensures Capitalize(Capitalize(s)) == Capitalize(s)
  {
    var c := Capitalize(s);
    if s != [] {
      assert UpperChar(UpperChar(s[0])) == UpperChar(s[0]);
      forall k | 1 <= k < |s|
        ensures Capitalize(c)[k] == c[k]
      {
        assert LowerChar(LowerChar(s[k])) == LowerChar(s[k]);
      }
    }
  }

  /** A string without whitespace at its ends keeps that shape when capitalized. */
  lemma CapitalizeKeepsEnds(s: string)
    requires s != [] && !IsSpace(s[0]) && !IsSpace(s[|s| - 1])
    ensures var c := Capitalize(s); !IsSpace(c[0]) && !IsSpace(c[|c| - 1])
  {
    CaseKeepsSpace(s[0]);
    CaseKeepsSpace(s[|s| - 1]);
  }

  /** A string with no whitespace at either end is its own strip. */
  lemma StripUnchanged(s: string)
    requires s != [] ==> !IsSpace(s[0]) && !IsSpace(s[|s| - 1])
    ensures Strip(s) == s
  {
    assert TrimLeft(s) == s;
    assert TrimRight(s) == s;
  }

  /** Stripping a second time changes nothing. */
  lemma StripIdempotent(s: string)
    ensures Strip(Strip(s)) == Strip(s)
  {
    StripUnchanged(Strip(s));
  }

  // ---------------------------------------------------------------------------
  // Qt's split(sep) and split(sep, Qt::SkipEmptyParts)
  // ---------------------------------------------------------------------------

  /** Joins `parts` with `sep` between neighbours. */
  function Join(parts: seq<string>, sep: char): string {
    if parts == [] then []
    else if |parts| == 1 then parts[0]
    else parts[0] + [sep] + Join(parts[1..], sep)
  }

  /** `s.split(sep)`: the pieces between separators, empty pieces included. */
  function Split(s: string, sep: char): (parts: seq<string>)
    decreases |s|
    ensures |parts| >= 1
    ensures forall k :: 0 <= k < |parts| ==> sep !in parts[k]
  {
    if sep !in s then [s]
    else
      var k := FindFirstChar(s, sep);
      [s[..k]] + Split(s[k + 1..], sep)
  }

  /** The index of the first `c` in `s`. */
  function FindFirstChar(s: string, c: char): (k: nat)
    requires c in s
    ensures k < |s| && s[k] == c && c !in s[..k]
  {
    if s[0] == c then 0
    else
      var k := FindFirstChar(s[1..], c);
      assert s[..k + 1] == [s[0]] + s[1..][..k];
      k + 1
  }

  /** Joining a part in front of at least one other puts one separator between them. */
  lemma JoinCons(head: string, rest: seq<string>, sep: char)
    requires rest != []
    ensures Join([head] + rest, sep) == head + [sep] + Join(rest, sep)
  {
    assert ([head] + rest)[1..] == rest;
  }

  /** Splitting and joining again gives back the text. */
  lemma {:induction false} JoinSplit(s: string, sep: char)
    decreases |s|
    ensures Join(Split(s, sep), sep) == s
  {
    if sep in s {
      var k := FindFirstChar(s, sep);
      var rest := Split(s[k + 1..], sep);
      assert Split(s, sep) == [s[..k]] + rest;
      JoinSplit(s[k + 1..], sep);
      JoinCons(s[..k], rest, sep);
      assert s == s[..k] + [sep] + s[k + 1..];
    }
  }

  /** Drops the empty strings of `parts`, keeping the order of the rest. */
  function NonEmpty(parts: seq<string>): (r: seq<string>)
    ensures |r| <= |parts|
    ensures forall k :: 0 <= k < |r| ==> r[k] != [] && r[k] in parts
    ensures forall p :: p in parts && p != [] ==> p in r
  {
    if parts == [] then []
    else if parts[0] == [] then NonEmpty(parts[1..])
    else [parts[0]] + NonEmpty(parts[1..])
  }

  /** Dropping empties works part by part: a single part stays exactly when it is non-empty. */
  lemma NonEmptySingle(p: string)
    ensures NonEmpty([p]) == if p == [] then [] else [p]
  {
    assert [p][1..] == [];
  }

  /** Dropping empties keeps the order: the parts of `a` come before those of `b`. */
  lemma {:induction false} NonEmptyAppend(a: seq<string>, b: seq<string>)
    ensures NonEmpty(a + b) == NonEmpty(a) + NonEmpty(b)
  {
    if a == [] {
      assert a + b == b;
    } else {
      assert (a + b)[0] == a[0] && (a + b)[1..] == a[1..] + b;
      NonEmptyAppend(a[1..], b);
    }
  }

  /** With no empty part nothing is dropped. */
  lemma {:induction false} NonEmptyKeepsAll(parts: seq<string>)
    requires forall k :: 0 <= k < |parts| ==> parts[k] != []
    ensures NonEmpty(parts) == parts
  {
    if parts != [] {
      NonEmptyKeepsAll(parts[1..]);
      assert parts == [parts[0]] + parts[1..];
    }
  }

  /** `s.split(sep, Qt::SkipEmptyParts)`. */
  function SplitSkipEmpty(s: string, sep: char): (parts: seq<string>)
    ensures forall k :: 0 <= k < |parts| ==> parts[k] != [] && sep !in parts[k]
  {
    NonEmpty(Split(s, sep))
  }

  /** Text whose split has no empty piece: non-empty, no separator at either end, none doubled. */
  predicate Tidy(s: string, sep: char) {
    && s != [] && s[0] != sep && s[|s| - 1] != sep
    && forall k :: 0 <= k < |s| - 1 && s[k] == sep ==> s[k + 1] != sep
  }

  /** Every piece of a tidy text is non-empty. */
  lemma {:induction false} TidySplitHasNoEmpty(s: string, sep: char)
    requires Tidy(s, sep)
    decreases |s|
    ensures forall k :: 0 <= k < |Split(s, sep)| ==> Split(s, sep)[k] != []
  {
    if sep in s {
      var k := FindFirstChar(s, sep);
      var rest := s[k + 1..];
      assert 0 < k < |s| - 1;
      assert rest[0] == s[k + 1];
      assert Tidy(rest, sep) by {
        forall j | 0 <= j < |rest| - 1 && rest[j] == sep
          ensures rest[j + 1] != sep
        {
          assert rest[j] == s[k + 1 + j] && rest[j + 1] == s[k + 1 + j + 1];
        }
      }
      TidySplitHasNoEmpty(rest, sep);
      assert Split(s, sep) == [s[..k]] + Split(rest, sep);
    }
  }

  /** On tidy text, skipping empty parts drops nothing, so joining the parts gives back the text. */
  lemma SplitSkipEmptyRoundTrip(s: string, sep: char)
    requires Tidy(s, sep)
    ensures Join(SplitSkipEmpty(s, sep), sep) == s
  {
    TidySplitHasNoEmpty(s, sep);
    NonEmptyKeepsAll(Split(s, sep));
    JoinSplit(s, sep);
  }

  // ---------------------------------------------------------------------------
  // Fixed-width decimal numerals
  // ---------------------------------------------------------------------------

  function Pow10(n: nat): (p: nat)
    ensures p >= 1
  {
    if n == 0 then 1 else 10 * Pow10(n - 1)
  }

  function DigitChar(d: nat): char
    requires d < 10
  {
    ('0' as int + d) as char
  }

  /** `n` printed in exactly `width` decimal digits, zero-padded (`%0<width>d` for `n < 10^width`). */
  function Decimal(n: nat, width: nat): (r: string)
    ensures |r| == width
    ensures forall k :: 0 <= k < |r| ==> IsDigit(r[k])
  {
    if width == 0 then [] else Decimal(n / 10, width - 1) + [DigitChar(n % 10)]
  }

  /** A number below 100 in two digits: its tens, then its units. */
  lemma TwoDigits(n: nat)
    requires n < 100
    ensures Decimal(n, 2) == [DigitChar(n / 10), DigitChar(n % 10)]
  {
    var t := n / 10;
    assert t < 10;
    assert t % 10 == t;
    assert Decimal(t, 1) == Decimal(t / 10, 0) + [DigitChar(t % 10)];
  }

  /** The number a string of decimal digits denotes. */
  function DecimalValue(s: string): (n: nat)
    requires forall k :: 0 <= k < |s| ==> IsDigit(s[k])
    ensures n < Pow10(|s|)
  {
    if s == [] then 0
    else
      var d := s[|s| - 1] as int - '0' as int;
      var m := DecimalValue(s[..|s| - 1]);
      assert IsDigit(s[|s| - 1]);
      assert m * 10 + d < Pow10(|s| - 1) * 10 by {
        assert m + 1 <= Pow10(|s| - 1);
      }
      m * 10 + d
  }

  /** Reading back a numeral that fits its width gives the number. */
  lemma {:induction false} DecimalRoundTrip(n: nat, width: nat)
    requires n < Pow10(width)
    ensures DecimalValue(Decimal(n, width)) == n
  {
    if width > 0 {
      var s := Decimal(n, width);
      assert s[..|s| - 1] == Decimal(n / 10, width - 1);
      DecimalRoundTrip(n / 10, width - 1);
    }
  }

  /** A number below `10^width` survives printing and reading back unchanged. */
  lemma DecimalInjective(m: nat, n: nat, width: nat)
    requires m < Pow10(width) && n < Pow10(width)
    requires Decimal(m, width) == Decimal(n, width)
    ensures m == n
  {
    DecimalRoundTrip(m, width);
    DecimalRoundTrip(n, width);
  }
}
