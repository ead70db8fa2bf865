/**
 * The few pieces of Ruby's String behaviour the plugins lean on: ASCII case
 * mapping (String#downcase / #upcase), whitespace as `split(' ')` and `\s`
 * see it, String#to_i, Integer#to_s and Array#join.
 */
module Text {

  /** Ruby's `\s` and awk-style `split(' ')`: space, \t, \n, \v, \f, \r. */
  predicate IsSpace(c: char) {
    c == ' ' || ('\t' <= c <= '\r')
  }

  predicate IsDigit(c: char) {
    '0' <= c <= '9'
  }

  predicate IsUpper(c: char) {
    'A' <= c <= 'Z'
  }

  predicate IsLower(c: char) {
    'a' <= c <= 'z'
  }

  /** `[A-Za-z0-9]` */
  predicate IsAsciiAlnum(c: char) {
    IsUpper(c) || IsLower(c) || IsDigit(c)
  }

  function Lower(c: char): (r: char)
    ensures IsUpper(c) ==> IsLower(r)
    ensures !IsUpper(c) ==> r == c
  {
    if IsUpper(c) then (c as int + 32) as char else c
  }

  function Upper(c: char): (r: char)
    ensures IsLower(c) ==> IsUpper(r)
    ensures !IsLower(c) ==> r == c
  {
    if IsLower(c) then (c as int - 32) as char else c
  }

  /** String#downcase on ASCII letters; every other character is kept. */
  function Downcase(s: string): (r: string)
    ensures |r| == |s|
    ensures forall i :: 0 <= i < |s| ==> r[i] == Lower(s[i])
  {
    seq(|s|, i requires 0 <= i < |s| => Lower(s[i]))
  }

  /** String#upcase on ASCII letters; every other character is kept. */
  function Upcase(s: string): (r: string)
    ensures |r| == |s|
    ensures forall i :: 0 <= i < |s| ==> r[i] == Upper(s[i])
  {
    seq(|s|, i requires 0 <= i < |s| => Upper(s[i]))
  }

  predicate NoSpace(s: string) {
    forall i :: 0 <= i < |s| ==> !IsSpace(s[i])
  }

  /** Length of the run of whitespace at the start of `s`. */
  function SpaceRun(s: string): (n: nat)
    ensures n <= |s|
    ensures forall i :: 0 <= i < n ==> IsSpace(s[i])
    ensures n < |s| ==> !IsSpace(s[n])
  {
    if s != [] && IsSpace(s[0]) then 1 + SpaceRun(s[1..]) else 0
  }

  /** Length of the run of non-whitespace characters at the start of `s`. */
  function WordLength(s: string): (n: nat)
    ensures n <= |s|
    ensures NoSpace(s[..n])
    ensures n < |s| ==> IsSpace(s[n])
  {
    if s == [] || IsSpace(s[0]) then 0
    else
      var n := 1 + WordLength(s[1..]);
      assert s[..n] == [s[0]] + s[1..][..n - 1];
      n
  }

  /** `s.split(' ')`: the maximal runs of non-whitespace characters, in order. */
  function Words(s: string): (ws: seq<string>)
    ensures forall k :: 0 <= k < |ws| ==> ws[k] != [] && NoSpace(ws[k])
    decreases |s|
  {
    if s == [] then []
    else if IsSpace(s[0]) then Words(s[1..])
    else
      var n := WordLength(s);
      [s[..n]] + Words(s[n..])
  }

  function DigitValue(c: char): nat
    requires IsDigit(c)
  {
    c as int - '0' as int
  }

  predicate AllDigits(s: string) {
    forall i :: 0 <= i < |s| ==> IsDigit(s[i])
  }

  /** The decimal value of a string of digits. */
  function DecimalValue(ds: string): nat
    requires AllDigits(ds)
  {
    if ds == [] then 0
    else DecimalValue(ds[..|ds| - 1]) * 10 + DigitValue(ds[|ds| - 1])
  }

  /**
   * Digits that continue a number under String#to_i: more digits, or a single
   * underscore between two digits (`"1_000".to_i == 1000`, `"1__0".to_i == 1`).
   */
  function MoreDigits(u: string): (ds: string)
    ensures AllDigits(ds)
  {
    if |u| > 0 && IsDigit(u[0]) then [u[0]] + MoreDigits(u[1..])
    else if |u| > 1 && u[0] == '_' && IsDigit(u[1]) then [u[1]] + MoreDigits(u[2..])
    else []
  }

  function LeadingDigits(t: string): (ds: string)
    ensures AllDigits(ds)
  {
    if |t| > 0 && IsDigit(t[0]) then [t[0]] + MoreDigits(t[1..]) else []
  }

  function DropSpace(s: string): (t: string)
    ensures |t| <= |s|
    ensures t == [] || !IsSpace(t[0])
  {
    if |s| > 0 && IsSpace(s[0]) then DropSpace(s[1..]) else s
  }

  /** In base 10, String#to_i skips a `0d` or `0D` radix prefix after the sign. */
  function DropDecimalPrefix(t: string): (u: string)
    ensures u == t || (|t| >= 2 && t[0] == '0' && (t[1] == 'd' || t[1] == 'D') && u == t[2..])
  {
    if |t| >= 2 && t[0] == '0' && (t[1] == 'd' || t[1] == 'D') then t[2..] else t
  }

  /** The magnitude String#to_i reads after the sign. */
  function Magnitude(t: string): nat {
    DecimalValue(LeadingDigits(DropDecimalPrefix(t)))
  }

  /**
   * String#to_i: leading whitespace, an optional sign, an optional `0d`
   * prefix, then the digits (single underscores allowed between them); a
   * string that does not start with a number gives 0.
   */
  function ToI(s: string): int {
    var t := DropSpace(s);
    if |t| > 0 && t[0] == '-' then -(Magnitude(t[1..]) as int)
    else if |t| > 0 && t[0] == '+' then Magnitude(t[1..])
    else Magnitude(t)
  }

  function DigitChar(d: nat): (c: char)
    requires d < 10
    ensures IsDigit(c) && DigitValue(c) == d
  {
    ('0' as int + d) as char
  }

  /** Integer#to_s for a non-negative integer. */
  function NatToString(n: nat): (s: string)
    ensures s != [] && AllDigits(s)
  {
    if n < 10 then [DigitChar(n)] else NatToString(n / 10) + [DigitChar(n % 10)]
  }

  /** Array#join */
  function Join(parts: seq<string>, sep: string): string {
    if parts == [] then []
    else if |parts| == 1 then parts[0]
    else parts[0] + sep + Join(parts[1..], sep)
  }

  lemma {:induction false} DecimalOfNatToString(n: nat)
    ensures DecimalValue(NatToString(n)) == n
  {
    var s := NatToString(n);
    if n >= 10 {
      DecimalOfNatToString(n / 10);
      assert s[..|s| - 1] == NatToString(n / 10);
    }
  }

  lemma {:induction false} MoreDigitsOfDigits(u: string)
    requires AllDigits(u)
    ensures MoreDigits(u) == u
  {
    if u != [] {
      MoreDigitsOfDigits(u[1..]);
      assert u == [u[0]] + u[1..];
    }
  }

  /** Integer#to_s followed by String#to_i gives the number back. */
  lemma ToIOfNatToString(n: nat)
    ensures ToI(NatToString(n)) == n
  {
    var s := NatToString(n);
    assert DropSpace(s) == s;
    MagnitudeOfNatToString(n);
  }

  lemma MagnitudeOfNatToString(n: nat)
    ensures Magnitude(NatToString(n)) == n
  {
    var s := NatToString(n);
    assert DropDecimalPrefix(s) == s;
    MoreDigitsOfDigits(s[1..]);
    assert s == [s[0]] + s[1..];
    assert LeadingDigits(s) == s;
    DecimalOfNatToString(n);
  }

  /** A `0d`/`0D` prefix after the sign does not change the number to_i reads. */
  lemma ToIOfDecimalPrefix(n: nat, sign: string, prefix: string)
    requires sign == "" || sign == "+" || sign == "-"
    requires prefix == "0d" || prefix == "0D"
    ensures ToI(sign + prefix + NatToString(n)) == if sign == "-" then -(n as int) else n
  {
    var digits := NatToString(n);
    var t := sign + prefix + digits;
    assert DropSpace(t) == t;
    var rest := if sign == "" then t else t[1..];
    assert rest == prefix + digits;
    assert DropDecimalPrefix(rest) == digits;
    assert Magnitude(rest) == Magnitude(digits);
    MagnitudeOfNatToString(n);
  }

  lemma {:induction false} WordLengthOfWord(w: string, rest: string)
    requires NoSpace(w)
    requires rest == [] || IsSpace(rest[0])
    ensures WordLength(w + rest) == |w|
  {
    if w != [] {
      assert (w + rest)[1..] == w[1..] + rest;
      WordLengthOfWord(w[1..], rest);
    }
  }

  /** Whitespace in front of a text adds no words. */
  lemma {:induction false} WordsAfterSpace(run: string, t: string)
    requires forall i :: 0 <= i < |run| ==> IsSpace(run[i])
    ensures Words(run + t) == Words(t)
    decreases |run|
  {
    if run == [] {
      assert run + t == t;
    } else {
      assert (run + t)[1..] == run[1..] + t;
      WordsAfterSpace(run[1..], t);
    }
  }

  /** A word followed by whitespace or by nothing is the first word. */
  lemma WordsOfWord(w: string, rest: string)
    requires w != [] && NoSpace(w)
    requires rest == [] || IsSpace(rest[0])
    ensures Words(w + rest) == [w] + Words(rest)
  {
    var s := w + rest;
    WordLengthOfWord(w, rest);
    assert s[0] == w[0];
    assert s[..|w|] == w && s[|w|..] == rest;
  }

  /** Two words separated by one space split back into those two words. */
  lemma WordsOfTwo(a: string, b: string)
    requires a != [] && NoSpace(a)
    requires b != [] && NoSpace(b)
    ensures Words(a + " " + b) == [a, b]
  {
    var s := a + " " + b;
    assert s == a + (" " + b);
    WordLengthOfWord(a, " " + b);
    assert s[0] == a[0] && !IsSpace(s[0]);
    assert s[..|a|] == a && s[|a|..] == " " + b;
    assert Words(s) == [a] + Words(" " + b);
    assert (" " + b)[1..] == b;
    assert Words(" " + b) == Words(b);
    WordLengthOfWord(b, []);
    assert b + [] == b;
    assert b[..|b|] == b && b[|b|..] == [];
    assert Words(b) == [b] + Words([]);
  }
}
