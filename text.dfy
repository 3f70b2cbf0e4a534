/**
 * String helpers with the exact semantics of the runtime functions the
 * scrapers and the query pages call: Python's str.strip / str.split /
 * str.replace / str.startswith, and PHP's strtolower together with the
 * PCRE character classes \s and \w.
 */
module Text {

  /** Characters Python's str.strip() removes when given no argument (str.isspace). */
  predicate IsPySpace(c: char) {
    c == ' ' || c == '\t' || c == '\n' || c == '\r' || c == '\U{000B}' || c == '\U{000C}'
    || ('\U{001C}' <= c <= '\U{001F}') || c == '\U{0085}' || c == '\U{00A0}' || c == '\U{1680}'
    || ('\U{2000}' <= c <= '\U{200A}') || c == '\U{2028}' || c == '\U{2029}' || c == '\U{202F}'
    || c == '\U{205F}' || c == '\U{3000}'
  }

  /** No whitespace at either end. */
  predicate NoEdgeSpace(s: string) {
    s == [] || (!IsPySpace(s[0]) && !IsPySpace(s[|s| - 1]))
  }

  /** Python's s.lstrip(). */
  function LStrip(s: string): (r: string)
    ensures |r| <= |s|
    ensures r == [] || !IsPySpace(r[0])
  {
    if s != [] && IsPySpace(s[0]) then LStrip(s[1..]) else s
  }

  /** lstrip removes a prefix made of whitespace only. */
  lemma {:induction false} LStripSufijo(s: string)
    ensures LStrip(s) == s[|s| - |LStrip(s)|..]
    ensures forall i :: 0 <= i < |s| - |LStrip(s)| ==> IsPySpace(s[i])
  {
    if s != [] && IsPySpace(s[0]) {
      LStripSufijo(s[1..]);
    }
  }

  /** Python's s.rstrip(). */
  function RStrip(s: string): (r: string)
    ensures |r| <= |s|
    ensures r == [] || !IsPySpace(r[|r| - 1])
  {
    if s != [] && IsPySpace(s[|s| - 1]) then RStrip(s[..|s| - 1]) else s
  }

  /** rstrip removes a suffix made of whitespace only. */
  lemma {:induction false} RStripPrefijo(s: string)
    ensures RStrip(s) == s[..|RStrip(s)|]
    ensures forall i :: |RStrip(s)| <= i < |s| ==> IsPySpace(s[i])
  {
    if s != [] && IsPySpace(s[|s| - 1]) {
      RStripPrefijo(s[..|s| - 1]);
    }
  }

  /** Python's s.strip(). */
  function Strip(s: string): (r: string)
    ensures NoEdgeSpace(r)
  {
    var l := LStrip(s);
    RStripPrefijo(l);
    RStrip(l)
  }

  /** Number of whitespace characters at the start of s. */
  function LeadingSpaces(s: string): (n: nat)
    ensures n <= |s|
  {
    |s| - |LStrip(s)|
  }

  /** Stripping removes whitespace only, and only at the two ends. */
  lemma StripInfijo(s: string)
    ensures LeadingSpaces(s) + |Strip(s)| <= |s|
    ensures Strip(s) == s[LeadingSpaces(s)..LeadingSpaces(s) + |Strip(s)|]
    ensures forall k :: 0 <= k < LeadingSpaces(s) ==> IsPySpace(s[k])
    ensures forall k :: LeadingSpaces(s) + |Strip(s)| <= k < |s| ==> IsPySpace(s[k])
  {
    var l := LStrip(s);
    LStripSufijo(s);
    RStripPrefijo(l);
    TramoInterior(s, |s| - |l|, l, RStrip(l));
  }

  /** A prefix r of the suffix l = s[a..], followed in l by whitespace only, is the slice of s from a. */
  lemma TramoInterior(s: string, a: nat, l: string, r: string)
    requires a <= |s| && l == s[a..] && |r| <= |l| && r == l[..|r|]
    requires forall i :: |r| <= i < |l| ==> IsPySpace(l[i])
    ensures r == s[a..a + |r|]
    ensures forall k :: a + |r| <= k < |s| ==> IsPySpace(s[k])
  {
    forall k | a + |r| <= k < |s|
      ensures IsPySpace(s[k])
    {
      assert s[k] == l[k - a];
    }
  }

  /** Stripping twice is stripping once. */
  lemma StripIdempotent(s: string)
    ensures Strip(Strip(s)) == Strip(s)
  {
    var t := Strip(s);
    assert LStrip(t) == t;
    assert RStrip(t) == t;
  }

  /** Python's s.startswith(p). */
  predicate StartsWith(s: string, p: string) {
    |p| <= |s| && s[..|p|] == p
  }

  /** Python's s.split(c) for a one-character separator: the pieces between separators, empties kept. */
  function Split(s: string, c: char): (r: seq<string>)
    ensures |r| >= 1
    ensures forall i :: 0 <= i < |r| ==> c !in r[i]
    ensures |r| == 1 <==> c !in s
    decreases |s|
  {
    if s == [] then [""]
    else
      var rest := Split(s[1..], c);
      if s[0] == c then [""] + rest
      else [[s[0]] + rest[0]] + rest[1..]
  }

  /** The pieces joined back with the separator (Python's c.join(pieces)). */
  function Join(pieces: seq<string>, c: char): string
    requires |pieces| >= 1
  {
    if |pieces| == 1 then pieces[0] else pieces[0] + [c] + Join(pieces[1..], c)
  }

  /** Splitting loses nothing: joining the pieces back gives the original text. */
  lemma {:induction false} SplitJoin(s: string, c: char)
    ensures Join(Split(s, c), c) == s
    decreases |s|
  {
    if s != [] {
      var rest := Split(s[1..], c);
      SplitJoin(s[1..], c);
      assert s == [s[0]] + s[1..];
      if s[0] == c {
        assert Join(Split(s, c), c) == "" + [c] + Join(rest, c);
      } else if |rest| == 1 {
        assert Split(s, c) == [[s[0]] + rest[0]];
      } else {
        var t := rest[1..];
        assert Split(s, c) == [[s[0]] + rest[0]] + t;
        assert Join(rest, c) == rest[0] + [c] + Join(t, c);
        assert Join(Split(s, c), c) == ([s[0]] + rest[0]) + [c] + Join(t, c);
      }
    }
  }

  /** Python's s.replace(p, ''): occurrences found left to right without overlap are removed. */
  function RemoveAll(s: string, p: string): (r: string)
    requires p != []
    ensures |r| <= |s|
    ensures StartsWith(s, p) ==> r == RemoveAll(s[|p|..], p)
    decreases |s|
  {
    if |s| < |p| then s
    else if s[..|p|] == p then RemoveAll(s[|p|..], p)
    else [s[0]] + RemoveAll(s[1..], p)
  }

  /** Where p does not start the text, its first character is kept. */
  lemma RemoveAllPaso(s: string, p: string)
    requires p != [] && |s| >= |p| && s[..|p|] != p
    ensures RemoveAll(s, p) == [s[0]] + RemoveAll(s[1..], p)
  {
  }

  /** Text without any occurrence of p is left untouched by the removal. */
  lemma {:induction false} RemoveAllAbsent(s: string, p: string)
    requires p != []
    requires forall i :: !OccursAt(s, p, i)
    ensures RemoveAll(s, p) == s
    decreases |s|
  {
    if |s| >= |p| {
      assert !OccursAt(s, p, 0);
      forall i
        ensures !OccursAt(s[1..], p, i)
      {
        if OccursAt(s[1..], p, i) {
          assert s[1..][i..i + |p|] == s[i + 1..i + 1 + |p|];
          assert OccursAt(s, p, i + 1);
        }
      }
      RemoveAllAbsent(s[1..], p);
    }
  }

  /** p occurs in s at position i. */
  predicate OccursAt(s: string, p: string, i: int) {
    0 <= i && i + |p| <= |s| && s[i..i + |p|] == p
  }

  // ---------------------------------------------------------------------------
  // PHP / PCRE character handling (ASCII only, as in PHP 8 strtolower and PCRE without /u).

  predicate IsUpper(c: char) { 'A' <= c <= 'Z' }
  predicate IsLower(c: char) { 'a' <= c <= 'z' }
  predicate IsDigit(c: char) { '0' <= c <= '9' }
  predicate IsAlnum(c: char) { IsUpper(c) || IsLower(c) || IsDigit(c) }

  /** PCRE \w without the /u modifier. */
  predicate IsWordChar(c: char) { IsAlnum(c) || c == '_' }

  /** PCRE \s: tab, line feed, vertical tab, form feed, carriage return, space. */
  predicate IsPcreSpace(c: char) {
    c == '\t' || c == '\n' || c == '\U{000B}' || c == '\U{000C}' || c == '\r' || c == ' '
  }

  /** Characters PHP's trim() removes by default. */
  predicate IsPhpTrimmed(c: char) {
    c == ' ' || c == '\t' || c == '\n' || c == '\r' || c == '\0' || c == '\U{000B}'
  }

  function LowerChar(c: char): (r: char)
    ensures IsUpper(c) ==> IsLower(r) && r as int == c as int + 32
    ensures !IsUpper(c) ==> r == c
  {
    if IsUpper(c) then (c as int + 32) as char else c
  }

  /** PHP's strtolower and Python's str.lower() on ASCII letters. */
  function Lower(s: string): (r: string)
    ensures |r| == |s|
    ensures forall i :: 0 <= i < |s| ==> r[i] == LowerChar(s[i])
  {
    seq(|s|, i requires 0 <= i < |s| => LowerChar(s[i]))
  }

  /** Case-insensitive (ASCII) equality of two strings. */
  predicate EqualsIgnoreCase(a: string, b: string) {
    Lower(a) == Lower(b)
  }

  /** PHP's trim() with the default character list. */
  function PhpTrim(s: string): (r: string)
    ensures |r| <= |s|
    ensures r == [] || (!IsPhpTrimmed(r[0]) && !IsPhpTrimmed(r[|r| - 1]))
    decreases |s|
  {
    if s == [] then s
    else if IsPhpTrimmed(s[0]) then PhpTrim(s[1..])
    else if IsPhpTrimmed(s[|s| - 1]) then PhpTrim(s[..|s| - 1])
    else s
  }

  /** Characters the validation filters of PHP trim before reading a value: no NUL, unlike trim(). */
  predicate IsFilterTrimmed(c: char) {
    c == ' ' || c == '\t' || c == '\r' || c == '\U{000B}' || c == '\n'
  }

  /** The trim FILTER_VALIDATE_BOOLEAN applies to its input. */
  function FilterTrim(s: string): (r: string)
    ensures |r| <= |s|
    ensures r == [] || (!IsFilterTrimmed(r[0]) && !IsFilterTrimmed(r[|r| - 1]))
    decreases |s|
  {
    if s == [] then s
    else if IsFilterTrimmed(s[0]) then FilterTrim(s[1..])
    else if IsFilterTrimmed(s[|s| - 1]) then FilterTrim(s[..|s| - 1])
    else s
  }

  /** PHP's trim() leaves a word unchanged. */
  lemma PhpTrimWord(s: string)
    requires forall i :: 0 <= i < |s| ==> IsWordChar(s[i])
    ensures PhpTrim(s) == s
  {
  }

  /** r occurs in s as one contiguous piece. */
  predicate Infijo(r: string, s: string) {
    exists i :: 0 <= i <= |s| && r <= s[i..]
  }

  /** A slice of s is a piece of s. */
  lemma TrozoInfijo(s: string, i: nat, j: nat)
    requires i <= j <= |s|
    ensures Infijo(s[i..j], s)
  {
    assert s[i..j] <= s[i..];
  }

  /** A piece of a piece of s is a piece of s. */
  lemma InfijoTransitivo(a: string, b: string, c: string)
    requires Infijo(a, b) && Infijo(b, c)
    ensures Infijo(a, c)
  {
    var i :| 0 <= i <= |b| && a <= b[i..];
    var j :| 0 <= j <= |c| && b <= c[j..];
    assert a <= c[j + i..] by {
      forall k | 0 <= k < |a|
        ensures a[k] == c[j + i + k]
      {
        assert a[k] == b[i + k] == c[j + i + k];
      }
    }
  }

  /** PHP's trim() only cuts characters off the two ends. */
  lemma {:induction false} PhpTrimInfijo(s: string)
    ensures Infijo(PhpTrim(s), s)
    decreases |s|
  {
    if s == [] || (!IsPhpTrimmed(s[0]) && !IsPhpTrimmed(s[|s| - 1])) {
      assert PhpTrim(s) <= s[0..];
    } else {
      var t := if IsPhpTrimmed(s[0]) then s[1..] else s[..|s| - 1];
      assert PhpTrim(s) == PhpTrim(t);
      PhpTrimInfijo(t);
      TrozoInfijo(s, if IsPhpTrimmed(s[0]) then 1 else 0, if IsPhpTrimmed(s[0]) then |s| else |s| - 1);
      InfijoTransitivo(PhpTrim(t), t, s);
    }
  }

  // ---------------------------------------------------------------------------
  // Decimal numerals.

  function DigitChar(d: nat): (c: char)
    requires d < 10
    ensures IsDigit(c)
  {
    ('0' as int + d) as char
  }

  /** Decimal rendering of a natural number (Python's str(n), PHP's string conversion). */
  function NatToString(n: nat): (r: string)
    ensures |r| >= 1
    ensures forall i :: 0 <= i < |r| ==> IsDigit(r[i])
  {
    if n < 10 then [DigitChar(n)] else NatToString(n / 10) + [DigitChar(n % 10)]
  }

  /** Value of a numeral made of decimal digits. */
  function DigitsValue(s: string): nat
    requires forall i :: 0 <= i < |s| ==> IsDigit(s[i])
  {
    if s == [] then 0 else 10 * DigitsValue(s[..|s| - 1]) + DigitValue(s[|s| - 1])
  }

  function DigitValue(c: char): (d: nat)
    requires IsDigit(c)
    ensures d < 10
  {
    c as int - '0' as int
  }

  /** Reading the rendered numeral back gives the number. */
  lemma {:induction false} NatToStringValue(n: nat)
    ensures DigitsValue(NatToString(n)) == n
  {
    if n >= 10 {
      NatToStringValue(n / 10);
      var s := NatToString(n);
      assert s[..|s| - 1] == NatToString(n / 10);
    }
  }

  /** No element occurs twice. */
  predicate SinRepetir<T(==)>(s: seq<T>) {
    forall i, j :: 0 <= i < j < |s| ==> s[i] != s[j]
  }

  /** A new element appended to a list without repeats keeps it without repeats. */
  lemma SinRepetirMas<T>(s: seq<T>, x: T)
    requires SinRepetir(s) && x !in s
    ensures SinRepetir(s + [x])
  {
    forall i, j | 0 <= i < j < |s| + 1
      ensures (s + [x])[i] != (s + [x])[j]
    {
      if j == |s| {
        assert (s + [x])[i] == s[i];
      }
    }
  }
}
