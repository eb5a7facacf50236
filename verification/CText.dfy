/**
 The pieces of the C and C++ text libraries that the server's parser and printer rely on,
 over `string`; one `char` stands for one byte of a buffer.
 */
module CText {
  const NUL: char := '\0'
  const CR: char := '\r'
  const LF: char := '\n'
  const CRLF: string := "\r\n"

  /** The conversion of an `int` result that does not fit in 32 bits (two's complement). */
  function ToInt32(n: int): (r: int)
    ensures -0x8000_0000 <= r < 0x8000_0000
    ensures -0x8000_0000 <= n < 0x8000_0000 ==> r == n
    ensures (n - r) % 0x1_0000_0000 == 0
  {
    (n + 0x8000_0000) % 0x1_0000_0000 - 0x8000_0000
  }

  /** The longest prefix of `s` without `c`. */
  function Until(s: string, c: char): string {
    if s == [] || s[0] == c then [] else [s[0]] + Until(s[1..], c)
  }

  /** The C string that starts at `s`. */
  function CString(s: string): string {
    Until(s, NUL)
  }

  function Lower(c: char): char {
    if 'A' <= c <= 'Z' then (c as int + 32) as char else c
  }

  /** `strcasecmp(a, b) == 0` */
  predicate EqNoCase(a: string, b: string) {
    |a| == |b| && forall i :: 0 <= i < |a| ==> Lower(a[i]) == Lower(b[i])
  }

  /** `strncasecmp(s, p, strlen(p)) == 0` */
  predicate StartsNoCase(s: string, p: string) {
    |p| <= |s| && EqNoCase(s[..|p|], p)
  }

  predicate IsBlank(c: char) {
    c == ' ' || c == '\t'
  }

  /** `s + strspn(s, " \t")` */
  function SkipBlanks(s: string): string {
    if s != [] && IsBlank(s[0]) then SkipBlanks(s[1..]) else s
  }

  predicate IsSpace(c: char) {
    c == ' ' || '\t' <= c <= '\r'
  }

  function SkipSpaces(s: string): string {
    if s != [] && IsSpace(s[0]) then SkipSpaces(s[1..]) else s
  }

  predicate IsDigit(c: char) {
    '0' <= c <= '9'
  }

  /** The number read by continuing from `acc` over the leading digits of `s`. */
  function LeadingNumber(s: string, acc: nat): nat {
    if s != [] && IsDigit(s[0]) then
      LeadingNumber(s[1..], 10 * acc + (s[0] as int - '0' as int))
    else
      acc
  }

  /** `atoi`, as `strtol` (which saturates at 64 bits) followed by a conversion to `int`. */
  function Atoi(s: string): (r: int)
    ensures -0x8000_0000 <= r < 0x8000_0000
  {
    var t := SkipSpaces(s);
    if t != [] && t[0] == '-' then
      var n: int := LeadingNumber(t[1..], 0);
      ToInt32(if n > 0x8000_0000_0000_0000 then -0x8000_0000_0000_0000 else -n)
    else
      var n := LeadingNumber(if t != [] && t[0] == '+' then t[1..] else t, 0);
      ToInt32(if n > 0x7fff_ffff_ffff_ffff then 0x7fff_ffff_ffff_ffff else n)
  }

  /** `%d` for a number that is not negative. */
  function Decimal(n: nat): (s: string)
    ensures s != [] && forall i :: 0 <= i < |s| ==> IsDigit(s[i])
  {
    if n < 10 then [(n + '0' as int) as char] else Decimal(n / 10) + [(n % 10 + '0' as int) as char]
  }

  /** `%d` */
  function DecimalInt(n: int): string {
    if n < 0 then "-" + Decimal(-n) else Decimal(n)
  }

  // ---- characters ----

  const UPPER: string := "ABCDEFGHIJKLMNOPQRSTUVWXYZ"
  const LOWER: string := "abcdefghijklmnopqrstuvwxyz"

  /** The same character, or the two cases of one letter. */
  predicate SameLetter(x: char, y: char) {
    x == y || exists k :: 0 <= k < 26 && (x == UPPER[k] || x == LOWER[k]) && (y == UPPER[k] || y == LOWER[k])
  }

  lemma Alphabet(k: nat)
    requires k < 26
    ensures UPPER[k] as int == 'A' as int + k && LOWER[k] as int == 'a' as int + k
  {
  }

  lemma OneLetter(x: char, y: char)
    requires x < y && Lower(x) == Lower(y)
    ensures exists k :: 0 <= k < 26 && x == UPPER[k] && y == LOWER[k]
  {
    var k := x as int - 'A' as int;
    Alphabet(k);
    assert x == UPPER[k] && y == LOWER[k];
  }

  lemma LowerIsCase(x: char, y: char)
    ensures Lower(x) == Lower(y) <==> SameLetter(x, y)
  {
    if Lower(x) == Lower(y) && x < y {
      OneLetter(x, y);
    } else if Lower(x) == Lower(y) && y < x {
      OneLetter(y, x);
    }
    if x != y && SameLetter(x, y) {
      var k :| 0 <= k < 26 && (x == UPPER[k] || x == LOWER[k]) && (y == UPPER[k] || y == LOWER[k]);
      BothCases(x, k);
      BothCases(y, k);
    }
  }

  lemma BothCases(x: char, k: nat)
    requires k < 26 && (x == UPPER[k] || x == LOWER[k])
    ensures Lower(x) == LOWER[k]
  {
    Alphabet(k);
  }

  /** Two strings are taken for equal if and only if they differ in the case of letters alone. */
  lemma CaseIsIgnored(a: string, b: string)
    ensures EqNoCase(a, b) <==> |a| == |b| && forall i :: 0 <= i < |a| ==> SameLetter(a[i], b[i])
  {
    hide Lower, SameLetter;
    forall i | 0 <= i < |a| && i < |b|
      ensures Lower(a[i]) == Lower(b[i]) <==> SameLetter(a[i], b[i])
    {
      LowerIsCase(a[i], b[i]);
    }
  }

  /** Just the spaces and tabs in front are skipped. */
  lemma {:induction false} BlanksAreSkipped(blanks: string, rest: string)
    requires forall i :: 0 <= i < |blanks| ==> blanks[i] == ' ' || blanks[i] == '\t'
    requires rest == [] || (rest[0] != ' ' && rest[0] != '\t')
    ensures SkipBlanks(blanks + rest) == rest
  {
    if blanks == [] {
      assert blanks + rest == rest;
    } else {
      assert (blanks + rest)[1..] == blanks[1..] + rest;
      BlanksAreSkipped(blanks[1..], rest);
    }
  }

  /** What `isspace` takes in the C locale. */
  const SPACES: string := [' ', '\t', '\n', 11 as char, 12 as char, '\r']

  lemma {:induction false} SpacesAreSkipped(spaces: string, rest: string)
    requires forall i :: 0 <= i < |spaces| ==> spaces[i] in SPACES
    requires rest == [] || rest[0] !in SPACES
    ensures SkipSpaces(spaces + rest) == rest
  {
    if spaces == [] {
      assert spaces + rest == rest;
    } else {
      assert (spaces + rest)[1..] == spaces[1..] + rest;
      SpacesAreSkipped(spaces[1..], rest);
    }
  }

  // ---- facts ----

  lemma {:induction false} UntilStops(s: string, c: char, i: nat)
    requires i < |s| && s[i] == c && c !in s[..i]
    ensures Until(s, c) == s[..i]
  {
    if i > 0 {
      assert s[0] == s[..i][0];
      assert s[1..][..i - 1] == s[1..i] == s[..i][1..];
      UntilStops(s[1..], c, i - 1);
    }
  }

  /** What follows the first `c` has no influence. */
  lemma {:induction false} UntilIgnoresTail(s: string, t: string, c: char)
    requires c in s
    ensures Until(s + t, c) == Until(s, c)
  {
    if s[0] != c {
      assert (s + t)[1..] == s[1..] + t;
      UntilIgnoresTail(s[1..], t, c);
    }
  }

  lemma {:induction false} UntilAcross(a: string, b: string, c: char)
    requires c !in a
    ensures Until(a + b, c) == a + Until(b, c)
  {
    if a == [] {
      assert a + b == b;
    } else {
      assert (a + b)[1..] == a[1..] + b;
      UntilAcross(a[1..], b, c);
    }
  }

  lemma {:induction false} UntilAll(s: string, c: char)
    requires c !in s
    ensures Until(s, c) == s
  {
    if s != [] {
      UntilAll(s[1..], c);
    }
  }

  lemma {:induction false} LeadingNumberSplit(a: string, b: string, acc: nat)
    requires forall i :: 0 <= i < |a| ==> IsDigit(a[i])
    ensures LeadingNumber(a + b, acc) == LeadingNumber(b, LeadingNumber(a, acc))
  {
    if a == [] {
      assert a + b == b;
    } else {
      assert (a + b)[1..] == a[1..] + b;
      LeadingNumberSplit(a[1..], b, 10 * acc + (a[0] as int - '0' as int));
    }
  }

  lemma {:induction false} LeadingNumberAll(n: nat)
    ensures LeadingNumber(Decimal(n), 0) == n
  {
    if n < 10 {
      assert LeadingNumber(Decimal(n)[1..], n) == n;
    } else {
      var last := [(n % 10 + '0' as int) as char];
      LeadingNumberSplit(Decimal(n / 10), last, 0);
      LeadingNumberAll(n / 10);
      assert LeadingNumber(last[1..], 10 * (n / 10) + n % 10) == n;
    }
  }

  /** Reading back a printed number gives the number, for every value an `int` holds. */
  lemma {:induction false} AtoiDecimal(n: nat)
    requires n < 0x8000_0000
    ensures Atoi(Decimal(n)) == n
  {
    var s := Decimal(n);
    assert IsDigit(s[0]);
    LeadingNumberAll(n);
  }

  /**
   What `atoi` reads: spaces, at most one sign, and digits, up to the first character that is no digit. The value
   is the number, as long as it fits in an `int`.
   */
  lemma AtoiReads(spaces: string, sign: string, n: nat, rest: string)
    requires forall i :: 0 <= i < |spaces| ==> spaces[i] in SPACES
    requires sign == "" || sign == "+" || sign == "-"
    requires rest == [] || rest[0] < '0' || '9' < rest[0]
    requires n < 0x8000_0000 || (n == 0x8000_0000 && sign == "-")
    ensures Atoi(spaces + (sign + (Decimal(n) + rest))) == if sign == "-" then 0 - n else n
  {
    var digits := Decimal(n) + rest;
    assert IsDigit(Decimal(n)[0]);
    LeadingNumberAll(n);
    LeadingNumberSplit(Decimal(n), rest, 0);
    SpacesAreSkipped(spaces, sign + digits);
    if sign == "" {
      assert sign + digits == digits;
    } else {
      assert (sign + digits)[1..] == digits;
    }
  }

  /** Without a digit where the number should be, `atoi` gives 0. */
  lemma AtoiOfNoNumber(spaces: string, sign: string, rest: string)
    requires forall i :: 0 <= i < |spaces| ==> spaces[i] in SPACES
    requires sign == "" || sign == "+" || sign == "-"
    requires rest == [] || rest[0] < '0' || '9' < rest[0]
    requires sign == "" ==> rest == [] || (rest[0] !in SPACES && rest[0] != '+' && rest[0] != '-')
    ensures Atoi(spaces + (sign + rest)) == 0
  {
    SpacesAreSkipped(spaces, sign + rest);
    if sign == "" {
      assert sign + rest == rest;
    } else {
      assert (sign + rest)[1..] == rest;
    }
  }

  /** Numbers that do not fit: saturated at 64 bits, then the low 32 bits. */
  lemma AtoiOfTooLarge(n: nat)
    ensures Atoi(Decimal(n)) == ToInt32(if n <= 0x7fff_ffff_ffff_ffff then n else 0x7fff_ffff_ffff_ffff)
    ensures Atoi("-" + Decimal(n)) ==
      ToInt32(if n <= 0x8000_0000_0000_0000 then 0 - n else -0x8000_0000_0000_0000)
  {
    hide Decimal, ToInt32, LeadingNumber;
    assert IsDigit(Decimal(n)[0]);
    LeadingNumberAll(n);
    assert ("-" + Decimal(n))[1..] == Decimal(n);
  }

  /** No leading zeros are printed. */
  lemma {:induction false} NoLeadingZero(n: nat)
    ensures Decimal(n)[0] == '0' <==> n == 0
  {
    if n >= 10 { NoLeadingZero(n / 10); }
  }

  lemma {:induction false} DecimalLength(n: nat, digits: nat, bound: nat)
    requires digits >= 1 && bound == Power10(digits) && n < bound
    ensures |Decimal(n)| <= digits
  {
    if n >= 10 {
      DecimalLength(n / 10, digits - 1, Power10(digits - 1));
    }
  }

  function Power10(k: nat): nat {
    if k == 0 then 1 else 10 * Power10(k - 1)
  }
}
