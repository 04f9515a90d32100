/**
 * The string primitives the server relies on, stated over `seq<char>`:
 * `strpos`, `explode`, `str_replace`, `trim`/`ltrim`, `strtolower`/`strtoupper`,
 * `ctype_digit`, `ctype_xdigit`, `hexdec`, `dechex`, `intval`, `is_numeric`/`floatval`
 * and PHP's loose `==` between numeric strings.
 */
module Strings {
  import opened Wrappers

  const CRLF: string := "\r\n"
  const DOUBLE_CRLF: string := "\r\n\r\n"

  // ---------------------------------------------------------------------------
  // Searching (strpos)

  /** `pat` occurs in `s` starting at index `i`. */
  predicate OccursAt(s: string, pat: string, i: int) {
    0 <= i && i + |pat| <= |s| && s[i..i + |pat|] == pat
  }

  /** `strpos(s, pat, from)`: the first occurrence of `pat` at or after `from`. */
  function IndexFrom(s: string, pat: string, from: nat): (r: Option<nat>)
    decreases |s| - from
    ensures r.Some? ==> from <= r.value && OccursAt(s, pat, r.value)
    ensures r.Some? ==> forall j | from <= j < r.value :: !OccursAt(s, pat, j)
    ensures r.None? ==> forall j | from <= j :: !OccursAt(s, pat, j)
  {
    if from + |pat| > |s| then None
    else if s[from..from + |pat|] == pat then Some(from)
    else IndexFrom(s, pat, from + 1)
  }

  /** `strpos(s, pat)`. */
  function IndexOf(s: string, pat: string): Option<nat> {
    IndexFrom(s, pat, 0)
  }

  predicate Contains(s: string, pat: string) {
    IndexOf(s, pat).Some?
  }

  /** An occurrence with none before it is the one `strpos` finds. */
  lemma IndexOfIsFirst(s: string, pat: string, p: nat)
    requires OccursAt(s, pat, p)
    requires forall j | 0 <= j < p :: !OccursAt(s, pat, j)
    ensures IndexOf(s, pat) == Some(p)
  {
  }

  /** The text before the first occurrence of a pattern does not contain it. */
  lemma NothingBeforeFirst(s: string, pat: string, p: nat)
    requires pat != "" && IndexOf(s, pat) == Some(p)
    ensures p <= |s| && !Contains(s[..p], pat)
  {
    var t := s[..p];
    forall j | 0 <= j
      ensures !OccursAt(t, pat, j)
    {
      if j + |pat| <= p {
        assert t[j..j + |pat|] == s[j..j + |pat|];
        assert !OccursAt(s, pat, j);
      }
    }
    assert IndexFrom(t, pat, 0).None?;
  }

  /** Appending bytes does not move an occurrence already present. */
  lemma IndexOfPrefix(a: string, b: string, pat: string)
    requires IndexOf(a, pat).Some?
    ensures IndexOf(a + b, pat) == IndexOf(a, pat)
  {
    var p := IndexOf(a, pat).value;
    assert (a + b)[p..p + |pat|] == a[p..p + |pat|];
    forall j | 0 <= j < p
      ensures !OccursAt(a + b, pat, j)
    {
      assert (a + b)[j..j + |pat|] == a[j..j + |pat|];
      assert !OccursAt(a, pat, j);
    }
    IndexOfIsFirst(a + b, pat, p);
  }

  /** An occurrence in a suffix is an occurrence in the whole. */
  lemma ContainsSuffix(a: string, b: string, pat: string)
    requires Contains(b, pat)
    ensures Contains(a + b, pat)
  {
    var p := IndexOf(b, pat).value;
    assert (a + b)[|a| + p..|a| + p + |pat|] == b[p..p + |pat|];
    assert OccursAt(a + b, pat, |a| + p);
  }

  /** An occurrence inside a prefix is found in the whole, no later than in the prefix. */
  lemma PrefixOccurrence(s: string, n: nat, pat: string)
    requires n <= |s|
    ensures Contains(s[..n], pat) ==> IndexOf(s, pat).Some? && IndexOf(s, pat).value + |pat| <= n
  {
    match IndexOf(s[..n], pat)
    case None =>
    case Some(q) =>
      assert s[..n][q..q + |pat|] == s[q..q + |pat|];
      assert OccursAt(s, pat, q);
  }

  /** A CRLF right after a run without CR is the first CRLF. */
  lemma IndexOfCrlfAfter(a: string, b: string)
    requires forall i | 0 <= i < |a| :: a[i] != '\r'
    ensures IndexOf(a + CRLF + b, CRLF) == Some(|a|)
  {
    var s := a + CRLF + b;
    assert s[|a|..|a| + 2] == CRLF;
    forall j | 0 <= j < |a|
      ensures !OccursAt(s, CRLF, j)
    {
      assert s[j..j + 2][0] == s[j] == a[j] != '\r';
    }
    IndexOfIsFirst(s, CRLF, |a|);
  }

  // ---------------------------------------------------------------------------
  // explode / implode

  /** `explode(sep, s)`. */
  function Split(s: string, sep: string): (parts: seq<string>)
    requires |sep| > 0
    ensures |parts| >= 1
    decreases |s|
  {
    match IndexOf(s, sep)
    case None => [s]
    case Some(p) => [s[..p]] + Split(s[p + |sep|..], sep)
  }

  /** `implode(sep, parts)`. */
  function Join(parts: seq<string>, sep: string): string {
    if |parts| == 0 then ""
    else if |parts| == 1 then parts[0]
    else parts[0] + sep + Join(parts[1..], sep)
  }

  /** Dropping a prefix of the first part of a concatenation. */
  lemma DropAppend(a: string, b: string, e: nat)
    requires e <= |a|
    ensures (a + b)[e..] == a[e..] + b
  {
  }

  /** The pieces of a sequence, one after another. */
  function Concat(chunks: seq<string>): string {
    if chunks == [] then "" else chunks[0] + Concat(chunks[1..])
  }

  /** A string without the separator character is one part. */
  lemma SplitNone(b: string, c: char)
    requires forall i | 0 <= i < |b| :: b[i] != c
    ensures Split(b, [c]) == [b]
  {
    forall j | 0 <= j
      ensures !OccursAt(b, [c], j)
    {
      if j + 1 <= |b| { assert b[j..j + 1][0] == b[j]; }
    }
  }

  /** The text before the first separator character is the first part. */
  lemma SplitCons(a: string, c: char, b: string)
    requires forall i | 0 <= i < |a| :: a[i] != c
    ensures Split(a + [c] + b, [c]) == [a] + Split(b, [c])
  {
    var s := a + [c] + b;
    assert s[|a|..|a| + 1] == [c];
    forall j | 0 <= j < |a|
      ensures !OccursAt(s, [c], j)
    {
      assert s[j..j + 1][0] == s[j] == a[j];
    }
    IndexOfIsFirst(s, [c], |a|);
    assert s[..|a|] == a && s[|a| + 1..] == b;
  }

  /** A string with exactly one separator character splits into the two sides. */
  lemma SplitOnce(a: string, c: char, b: string)
    requires forall i | 0 <= i < |a| :: a[i] != c
    requires forall i | 0 <= i < |b| :: b[i] != c
    ensures Split(a + [c] + b, [c]) == [a, b]
  {
    SplitCons(a, c, b);
    SplitNone(b, c);
  }

  /** Splitting loses nothing: joining the parts back gives the input. */
  lemma {:induction false} JoinSplit(s: string, sep: string)
    requires |sep| > 0
    ensures Join(Split(s, sep), sep) == s
    decreases |s|
  {
    match IndexOf(s, sep)
    case None =>
    case Some(p) =>
      var rest := Split(s[p + |sep|..], sep);
      JoinSplit(s[p + |sep|..], sep);
      assert Split(s, sep) == [s[..p]] + rest;
      assert ([s[..p]] + rest)[1..] == rest;
      calc {
        Join(Split(s, sep), sep);
        s[..p] + sep + Join(rest, sep);
        s[..p] + s[p..p + |sep|] + s[p + |sep|..];
        s;
      }
  }

  // ---------------------------------------------------------------------------
  // str_replace

  /** `str_replace(pat, rep, s)`: one left-to-right pass over non-overlapping occurrences. */
  function Replace(s: string, pat: string, rep: string): string
    decreases |s|
  {
    if |pat| == 0 || |s| < |pat| then s
    else if s[..|pat|] == pat then rep + Replace(s[|pat|..], pat, rep)
    else [s[0]] + Replace(s[1..], pat, rep)
  }

  /** Replacing a single character distributes over concatenation. */
  lemma {:induction false} ReplaceCharAppend(a: string, b: string, c: char, rep: string)
    ensures Replace(a + b, [c], rep) == Replace(a, [c], rep) + Replace(b, [c], rep)
    decreases |a|
  {
    if a == "" {
      assert a + b == b;
    } else {
      assert (a + b)[1..] == a[1..] + b;
      assert (a + b)[..1] == a[..1];
      ReplaceCharAppend(a[1..], b, c, rep);
    }
  }

  /** Replacing a pattern that does not occur changes nothing. */
  lemma {:induction false} ReplaceAbsent(s: string, pat: string, rep: string)
    requires !Contains(s, pat)
    ensures Replace(s, pat, rep) == s
    decreases |s|
  {
    if |pat| == 0 || |s| < |pat| {
    } else {
      assert !OccursAt(s, pat, 0);
      forall j | 0 <= j
        ensures !OccursAt(s[1..], pat, j)
      {
        assert !OccursAt(s, pat, j + 1);
        if j + |pat| <= |s| - 1 {
          assert s[1..][j..j + |pat|] == s[j + 1..j + 1 + |pat|];
        }
      }
      ReplaceAbsent(s[1..], pat, rep);
      assert [s[0]] + s[1..] == s;
    }
  }

  // ---------------------------------------------------------------------------
  // trim / ltrim / rtrim

  /** The characters PHP's `trim` strips by default. */
  const WHITESPACE: set<char> := {' ', '\t', '\n', '\r', '\0', '\U{B}'}
  const CRLF_CHARS: set<char> := {'\r', '\n'}

  /** `ltrim(s, cs)`. */
  function LTrim(s: string, cs: set<char>): (r: string)
    ensures |r| <= |s|
    ensures r == "" || r[0] !in cs
  {
    if s != "" && s[0] in cs then LTrim(s[1..], cs) else s
  }

  /** `rtrim(s, cs)`. */
  function RTrim(s: string, cs: set<char>): (r: string)
    ensures |r| <= |s| && r == s[..|r|]
    ensures r == "" || r[|r| - 1] !in cs
    ensures forall i | |r| <= i < |s| :: s[i] in cs
  {
    if s != "" && s[|s| - 1] in cs then RTrim(s[..|s| - 1], cs) else s
  }

  /** `trim(s)`. */
  function Trim(s: string): string {
    RTrim(LTrim(s, WHITESPACE), WHITESPACE)
  }

  /** Trimming a prefix first and then the whole is the same as trimming the whole. */
  lemma {:induction false} LTrimConcat(a: string, b: string, cs: set<char>)
    ensures LTrim(LTrim(a, cs) + b, cs) == LTrim(a + b, cs)
    decreases |a|
  {
    if a == "" {
      assert a + b == b;
    } else if a[0] in cs {
      assert (a + b)[1..] == a[1..] + b;
      LTrimConcat(a[1..], b, cs);
    }
  }

  // ---------------------------------------------------------------------------
  // Character classes and case

  function Lower(c: char): char {
    if 'A' <= c <= 'Z' then (c as int + 32) as char else c
  }

  function Upper(c: char): char {
    if 'a' <= c <= 'z' then (c as int - 32) as char else c
  }

  /** `strtolower(s)` on ASCII letters. */
  function ToLower(s: string): (r: string)
    ensures |r| == |s| && forall i | 0 <= i < |s| :: r[i] == Lower(s[i])
  {
    seq(|s|, i requires 0 <= i < |s| => Lower(s[i]))
  }

  /** `strtoupper(s)` on ASCII letters. */
  function ToUpper(s: string): (r: string)
    ensures |r| == |s| && forall i | 0 <= i < |s| :: r[i] == Upper(s[i])
  {
    seq(|s|, i requires 0 <= i < |s| => Upper(s[i]))
  }

  /** `str_replace(c, "", s)` for a single character. */
  function RemoveChar(s: string, c: char): (r: string)
    ensures forall i | 0 <= i < |r| :: r[i] != c
    ensures |r| <= |s|
  {
    if s == "" then "" else if s[0] == c then RemoveChar(s[1..], c) else [s[0]] + RemoveChar(s[1..], c)
  }

  predicate IsDigit(c: char) { '0' <= c <= '9' }

  predicate AllDigits(s: string) { forall i | 0 <= i < |s| :: IsDigit(s[i]) }

  /** `ctype_digit(s)`: non-empty and decimal digits only. */
  predicate IsDigits(s: string) { |s| > 0 && AllDigits(s) }

  predicate IsHexDigit(c: char) { '0' <= c <= '9' || 'a' <= c <= 'f' || 'A' <= c <= 'F' }

  predicate AllHex(s: string) { forall i | 0 <= i < |s| :: IsHexDigit(s[i]) }

  /** `ctype_xdigit(s)`: non-empty and hexadecimal digits only. */
  predicate IsHex(s: string) { |s| > 0 && AllHex(s) }

  // ---------------------------------------------------------------------------
  // Hexadecimal (hexdec / dechex)

  function HexDigitValue(c: char): (d: nat)
    requires IsHexDigit(c)
    ensures d < 16
  {
    if '0' <= c <= '9' then c as int - '0' as int
    else if 'a' <= c <= 'f' then c as int - 'a' as int + 10
    else c as int - 'A' as int + 10
  }

  /** `hexdec(s)` for a string of hex digits. */
  function HexValue(s: string): nat
    requires AllHex(s)
  {
    if s == "" then 0 else HexValue(s[..|s| - 1]) * 16 + HexDigitValue(s[|s| - 1])
  }

  function HexDigit(d: nat): (c: char)
    requires d < 16
    ensures IsHexDigit(c) && HexDigitValue(c) == d && c != '\r'
  {
    "0123456789abcdef"[d]
  }

  /** `dechex(n)`: lower-case hexadecimal without leading zeros. */
  function Hex(n: nat): (r: string)
    ensures IsHex(r)
    ensures forall i | 0 <= i < |r| :: r[i] != '\r'
    decreases n
  {
    if n < 16 then [HexDigit(n)] else Hex(n / 16) + [HexDigit(n % 16)]
  }

  /** `hexdec(dechex(n)) == n`. */
  lemma {:induction false} HexRoundTrip(n: nat)
    ensures HexValue(Hex(n)) == n
    decreases n
  {
    if n >= 16 {
      var h := Hex(n / 16) + [HexDigit(n % 16)];
      assert h[..|h| - 1] == Hex(n / 16);
      HexRoundTrip(n / 16);
    }
  }

  // ---------------------------------------------------------------------------
  // Decimal (intval / strval) and numeric strings (is_numeric / floatval)

  /** `intval(s)` for a string of decimal digits (no overflow modelled). */
  function DecimalValue(s: string): nat
    requires AllDigits(s)
  {
    if s == "" then 0 else DecimalValue(s[..|s| - 1]) * 10 + (s[|s| - 1] as int - '0' as int)
  }

  /** `strval(n)` for a natural number. */
  function NatToString(n: nat): (r: string)
    ensures IsDigits(r)
    decreases n
  {
    if n < 10 then [(n + '0' as int) as char] else NatToString(n / 10) + [((n % 10) + '0' as int) as char]
  }

  /** `intval(strval(n)) == n`. */
  lemma {:induction false} DecimalRoundTrip(n: nat)
    ensures DecimalValue(NatToString(n)) == n
    decreases n
  {
    if n >= 10 {
      var s := NatToString(n);
      assert s[..|s| - 1] == NatToString(n / 10);
      DecimalRoundTrip(n / 10);
    }
  }

  function Pow10(k: nat): (p: nat)
    ensures p >= 1
  {
    if k == 0 then 1 else 10 * Pow10(k - 1)
  }

  /** The value of an unsigned decimal literal `ddd`, `ddd.`, `.ddd` or `ddd.ddd`. */
  function UnsignedNumeric(s: string): Option<real> {
    match IndexOf(s, ".")
    case None => if IsDigits(s) then Some(DecimalValue(s) as real) else None
    case Some(p) =>
      var whole, frac := s[..p], s[p + 1..];
      if AllDigits(whole) && AllDigits(frac) && |whole| + |frac| > 0
      then Some(DecimalValue(whole) as real + DecimalValue(frac) as real / Pow10(|frac|) as real)
      else None
  }

  /**
   * `is_numeric(s)` and `floatval(s)` together: the value of a decimal numeric
   * string with an optional sign, or None when `is_numeric` is false.
   */
  function Numeric(s: string): Option<real> {
    if s != "" && s[0] == '-' then
      match UnsignedNumeric(s[1..]) case Some(v) => Some(-v) case None => None
    else if s != "" && s[0] == '+' then UnsignedNumeric(s[1..])
    else UnsignedNumeric(s)
  }

  /** PHP's `==` between two strings: numerically when both are numeric strings. */
  predicate LooseEq(a: string, b: string) {
    if Numeric(a).Some? && Numeric(b).Some? then Numeric(a).value == Numeric(b).value else a == b
  }
}
