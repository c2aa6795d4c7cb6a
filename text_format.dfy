/** Decimal and hexadecimal text of integers, standing for the C runtime's
    `printf`/`scanf` conversions the marshalers go through (`%d`, `%u`,
    `%x` and their width variants). Writing gives the shortest digit string;
    reading skips leading blanks, takes an optional sign (and, in base 16, an
    optional `0x`), then the longest run of digits, and fails when there is no
    digit. */
module TextFormat {
  import opened Common

  predicate IsDigitIn(c: char, base: nat)
  {
    ('0' <= c <= '9' && (c as int - '0' as int) < base)
    || (base == 16 && (('a' <= c <= 'f') || ('A' <= c <= 'F')))
  }

  function DigitValue(c: char): nat
  {
    if '0' <= c <= '9' then c as int - '0' as int
    else if 'a' <= c <= 'f' then c as int - 'a' as int + 10
    else if 'A' <= c <= 'F' then c as int - 'A' as int + 10
    else 0
  }

  /** The lower-case digit printed for `d`. */
  function DigitChar(d: nat): (c: char)
    requires d < 16
    ensures IsDigitIn(c, 16) && DigitValue(c) == d
    ensures d < 10 ==> IsDigitIn(c, 10)
  {
    if d < 10 then ('0' as int + d) as char else ('a' as int + d - 10) as char
  }

  predicate Base(base: nat) { base == 10 || base == 16 }

  /** The digits of `n`, most significant first, as `printf` writes them. */
  function Digits(n: nat, base: nat): (r: string)
    requires Base(base)
    ensures |r| > 0
    ensures forall i :: 0 <= i < |r| ==> IsDigitIn(r[i], base)
    decreases n
  {
    if n < base then [DigitChar(n)] else Digits(n / base, base) + [DigitChar(n % base)]
  }

  function ValueOf(s: string, base: nat): nat
  {
    if s == [] then 0 else ValueOf(s[..|s| - 1], base) * base + DigitValue(s[|s| - 1])
  }

  /** The longest prefix of `s` made of digits. */
  function DigitRun(s: string, base: nat): (r: string)
    ensures r <= s
    ensures forall i :: 0 <= i < |r| ==> IsDigitIn(r[i], base)
    ensures |r| < |s| ==> !IsDigitIn(s[|r|], base)
  {
    if s != [] && IsDigitIn(s[0], base) then [s[0]] + DigitRun(s[1..], base) else []
  }

  predicate IsBlank(c: char) { c == ' ' || c == '\t' || c == '\n' || c == '\r' }

  function SkipBlanks(s: string): (r: string)
    ensures |r| <= |s| && r == s[|s| - |r|..]
    ensures r == [] || !IsBlank(r[0])
  {
    if s != [] && IsBlank(s[0]) then SkipBlanks(s[1..]) else s
  }

  /** `%d`-style reading: optional sign, then digits. */
  function ParseSigned(s: string, base: nat): Option<int>
  {
    var t := SkipBlanks(s);
    var negative := t != [] && t[0] == '-';
    var body := if t != [] && (t[0] == '-' || t[0] == '+') then t[1..] else t;
    var run := DigitRun(body, base);
    var magnitude: int := ValueOf(run, base);
    if run == [] then None
    else Some(if negative then -magnitude else magnitude)
  }

  function DecimalText(i: int): string
  {
    if i < 0 then "-" + Digits(-i, 10) else Digits(i, 10)
  }

  function ParseDecimal(s: string): Option<int>
  {
    ParseSigned(s, 10)
  }

  /** `0x%x`: the hexadecimal text of a version number. */
  function HexText(n: nat): string
  {
    "0x" + Digits(n, 16)
  }

  /** `%x`: an optional `0x`/`0X` prefix (taken only when a hexadecimal digit
      follows it), then hexadecimal digits. */
  function ParseHex(s: string): Option<nat>
  {
    var t := SkipBlanks(s);
    var body :=
      if |t| >= 3 && t[0] == '0' && (t[1] == 'x' || t[1] == 'X') && IsDigitIn(t[2], 16)
      then t[2..] else t;
    var run := DigitRun(body, 16);
    if run == [] then None else Some(ValueOf(run, 16))
  }

  lemma {:induction false} ValueOfDigits(n: nat, base: nat)
    requires Base(base)
    ensures ValueOf(Digits(n, base), base) == n
    decreases n
  {
    if n >= base {
      var d := Digits(n / base, base);
      var s := d + [DigitChar(n % base)];
      ValueOfDigits(n / base, base);
      assert s[..|d|] == d;
      assert ValueOf(s, base) == (n / base) * base + n % base;
    } else {
      assert ValueOf([DigitChar(n)], base) == n by {
        assert [DigitChar(n)][..0] == [];
      }
    }
  }

  lemma {:induction false} DigitRunOfDigits(s: string, base: nat)
    requires forall i :: 0 <= i < |s| ==> IsDigitIn(s[i], base)
    ensures DigitRun(s, base) == s
    decreases |s|
  {
    if s != [] {
      DigitRunOfDigits(s[1..], base);
    }
  }

  lemma ParseSignedOfDigits(d: string, negative: bool, base: nat)
    requires d != [] && forall i :: 0 <= i < |d| ==> IsDigitIn(d[i], base)
    ensures var text := if negative then "-" + d else d;
            var v: int := ValueOf(d, base);
            ParseSigned(text, base) == Some(if negative then -v else v)
  {
    DigitRunOfDigits(d, base);
    if negative {
      var text := "-" + d;
      assert text[0] == '-';
      assert SkipBlanks(text) == text;
      assert text[1..] == d;
    } else {
      assert d[0] != '-' && d[0] != '+' && !IsBlank(d[0]);
      assert SkipBlanks(d) == d;
    }
  }

  /** Reading back what `%d` wrote gives the number again. */
  lemma DecimalRoundTrip(i: int)
    ensures ParseDecimal(DecimalText(i)) == Some(i)
  {
    var n := if i < 0 then -i else i;
    ValueOfDigits(n, 10);
    ParseSignedOfDigits(Digits(n, 10), i < 0, 10);
  }

  /** Reading back what `0x%x` wrote gives the number again. */
  lemma HexRoundTrip(n: nat)
    ensures ParseHex(HexText(n)) == Some(n)
  {
    var d := Digits(n, 16);
    DigitRunOfDigits(d, 16);
    ValueOfDigits(n, 16);
    var text := HexText(n);
    assert SkipBlanks(text) == text;
    assert text[2..] == d;
  }
}
