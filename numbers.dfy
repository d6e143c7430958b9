/** The number handling the scraper relies on: `parseInt` without a radix,
    `String.prototype.match(/\d+/g)`, `Number.prototype.toString(16)` and `padStart(2, '0')`. */
module Numbers {
  import opened Wrappers
  import Text

  /** The ASCII digits, the class `\d` matches. */
  predicate IsDigit(c: char) {
    '0' <= c <= '9'
  }

  predicate AllDigits(s: string) {
    forall i :: 0 <= i < |s| ==> IsDigit(s[i])
  }

  /** The value of `c` as a digit of `radix` (`0`-`9`, then `a`-`z` in either case),
      if it is one. */
  function DigitValue(c: char, radix: nat): (r: Option<nat>)
    ensures r.Some? ==> r.value < radix
  {
    var v :=
      if '0' <= c <= '9' then c as int - '0' as int
      else if 'a' <= c <= 'z' then c as int - 'a' as int + 10
      else if 'A' <= c <= 'Z' then c as int - 'A' as int + 10
      else 36;
    if v < radix then Some(v) else None
  }

  predicate AllRadixDigits(s: string, radix: nat) {
    forall i :: 0 <= i < |s| ==> DigitValue(s[i], radix).Some?
  }

  /** The longest prefix of `s` made of digits of `radix`. */
  function DigitPrefix(s: string, radix: nat): (d: string)
    ensures |d| <= |s| && d == s[..|d|] && AllRadixDigits(d, radix)
    ensures |d| == |s| || DigitValue(s[|d|], radix).None?
  {
    if s == [] || DigitValue(s[0], radix).None? then []
    else [s[0]] + DigitPrefix(s[1..], radix)
  }

  /** The value of a string of digits of `radix`, most significant first. */
  function ValueOf(d: string, radix: nat): nat
    requires AllRadixDigits(d, radix)
    decreases |d|
  {
    if d == [] then 0
    else ValueOf(d[..|d| - 1], radix) * radix + DigitValue(d[|d| - 1], radix).value
  }

  /** `parseInt(s)` with no radix: leading white space is skipped, then an optional
      sign, then a `0x`/`0X` prefix selects radix 16; the longest run of digits that
      follows is the value. None stands for NaN (no digits at all). */
  function ParseInt(s: string): Option<int> {
    ParseSigned(Text.DropWhite(s))
  }

  /** `parseInt` from the first character that is not white space on. */
  function ParseSigned(t: string): Option<int> {
    var negative := t != [] && t[0] == '-';
    var u := if t != [] && (t[0] == '-' || t[0] == '+') then t[1..] else t;
    var hex := |u| >= 2 && u[0] == '0' && (u[1] == 'x' || u[1] == 'X');
    var radix := if hex then 16 else 10;
    var v := if hex then u[2..] else u;
    var d := DigitPrefix(v, radix);
    if d == [] then None
    else
      var n: int := ValueOf(d, radix);
      Some(if negative then -n else n)
  }

  function DecimalDigit(n: nat): (c: char)
    requires n < 10
    ensures IsDigit(c) && DigitValue(c, 10) == Some(n)
  {
    ('0' as int + n) as char
  }

  /** The decimal numeral of `n`, as `String(n)` writes it. */
  function Decimal(n: nat): string
    decreases n
  {
    if n < 10 then [DecimalDigit(n)] else Decimal(n / 10) + [DecimalDigit(n % 10)]
  }

  function HexDigit(n: nat): (c: char)
    requires n < 16
    ensures DigitValue(c, 16) == Some(n)
  {
    if n < 10 then DecimalDigit(n) else ('a' as int + n - 10) as char
  }

  /** `n.toString(16)` for a non-negative integer: lower-case, no leading zeros. */
  function Hex(n: nat): string
    decreases n
  {
    if n < 16 then [HexDigit(n)] else Hex(n / 16) + [HexDigit(n % 16)]
  }

  /** `x.toString(16)` for a number that `parseInt` produced (None is NaN). */
  function NumberToHex(x: Option<int>): string {
    match x
    case None => "NaN"
    case Some(v) => if v >= 0 then Hex(v) else "-" + Hex(-v)
  }

  /** `s.padStart(2, '0')`. */
  function PadStart2(s: string): string {
    if |s| >= 2 then s else seq(2 - |s|, _ => '0') + s
  }

  /** The sequence `s.match(/\d+/g)` returns (empty where it returns null): the maximal
      runs of digits, left to right. */
  function DigitRuns(s: string): (runs: seq<string>)
    decreases |s|
    ensures forall i :: 0 <= i < |runs| ==> runs[i] != [] && AllDigits(runs[i])
  {
    if s == [] then []
    else if IsDigit(s[0]) then
      var d := DigitPrefix(s, 10);
      assert forall i :: 0 <= i < |d| ==> DigitValue(d[i], 10).Some? ==> IsDigit(d[i]);
      [d] + DigitRuns(s[|d|..])
    else DigitRuns(s[1..])
  }

  // ----- lemmas -----

  lemma DigitsAreRadixDigits(d: string)
    requires AllDigits(d)
    ensures AllRadixDigits(d, 10)
  {
  }

  lemma {:induction false} DecimalDigits(n: nat)
    ensures Decimal(n) != [] && AllDigits(Decimal(n)) && AllRadixDigits(Decimal(n), 10)
    ensures ValueOf(Decimal(n), 10) == n
    ensures Decimal(n)[0] == '0' ==> n == 0
    decreases n
  {
    if n >= 10 {
      DecimalDigits(n / 10);
      var p := Decimal(n / 10);
      var d := Decimal(n);
      assert d == p + [DecimalDigit(n % 10)];
      assert d[..|d| - 1] == p;
      assert d[0] == p[0];
    }
  }

  lemma {:induction false} DigitPrefixAll(s: string, radix: nat)
    requires AllRadixDigits(s, radix)
    ensures DigitPrefix(s, radix) == s
    decreases |s|
  {
    if s != [] {
      DigitPrefixAll(s[1..], radix);
    }
  }

  /** A plain string of decimal digits parses to its value. */
  lemma ParseIntDigits(s: string)
    requires s != [] && AllDigits(s)
    ensures ParseInt(s) == Some(ValueOf(s, 10))
  {
    assert !Text.IsWhite(s[0]);
    assert Text.DropWhite(s) == s;
    assert s[0] != '-' && s[0] != '+';
    assert |s| >= 2 ==> IsDigit(s[1]);
    DigitsAreRadixDigits(s);
    DigitPrefixAll(s, 10);
  }

  /** `parseInt` reads back every decimal numeral `String(n)` writes. */
  lemma ParseIntDecimal(n: nat)
    ensures ParseInt(Decimal(n)) == Some(n)
  {
    DecimalDigits(n);
    ParseIntDigits(Decimal(n));
  }

  /** Text that, after white space and an optional sign, does not start with a digit
      parses to NaN. */
  lemma ParseIntNaN(s: string)
    requires var t := Text.DropWhite(s);
             var u := if t != [] && (t[0] == '-' || t[0] == '+') then t[1..] else t;
             u == [] || !IsDigit(u[0])
    ensures ParseInt(s) == None
  {
    SignedNaN(Text.DropWhite(s));
  }

  lemma SignedNaN(t: string)
    requires var u := if t != [] && (t[0] == '-' || t[0] == '+') then t[1..] else t;
             u == [] || !IsDigit(u[0])
    ensures ParseSigned(t) == None
  {
    var u := if t != [] && (t[0] == '-' || t[0] == '+') then t[1..] else t;
    assert !(|u| >= 2 && u[0] == '0');
    assert DigitPrefix(u, 10) == [] by {
      if u != [] {
        assert DigitValue(u[0], 10).None?;
      }
    }
  }

  lemma {:induction false} HexDigits(n: nat)
    ensures Hex(n) != [] && AllRadixDigits(Hex(n), 16) && ValueOf(Hex(n), 16) == n
    ensures n < 256 ==> |Hex(n)| <= 2
    decreases n
  {
    if n >= 16 {
      HexDigits(n / 16);
      var p := Hex(n / 16);
      var h := Hex(n);
      assert h == p + [HexDigit(n % 16)];
      assert h[..|h| - 1] == p;
    }
  }

  /** A colour component 0..255 is written as exactly two hexadecimal digits that read
      back as the component. */
  lemma Hex2RoundTrip(n: nat)
    requires n < 256
    ensures var h := PadStart2(Hex(n));
            |h| == 2 && AllRadixDigits(h, 16) && ValueOf(h, 16) == n
  {
    HexDigits(n);
    var x := Hex(n);
    var h := PadStart2(x);
    if |x| == 1 {
      assert h == ['0'] + x;
      assert h[..1] == ['0'];
      assert ValueOf(h[..1], 16) == 0 by {
        assert h[..1][..0] == [];
      }
    }
  }

  function Concat(runs: seq<string>): string {
    if runs == [] then [] else runs[0] + Concat(runs[1..])
  }

  /** The digits of `s`, in order, without anything in between. */
  function OnlyDigits(s: string): (r: string)
    ensures AllDigits(r)
  {
    if s == [] then []
    else if IsDigit(s[0]) then [s[0]] + OnlyDigits(s[1..])
    else OnlyDigits(s[1..])
  }

  lemma {:induction false} OnlyDigitsAppend(a: string, b: string)
    ensures OnlyDigits(a + b) == OnlyDigits(a) + OnlyDigits(b)
    decreases |a|
  {
    if a == [] {
      assert a + b == b;
    } else {
      assert (a + b)[1..] == a[1..] + b;
      OnlyDigitsAppend(a[1..], b);
    }
  }

  lemma {:induction false} OnlyDigitsOfDigits(d: string)
    requires AllDigits(d)
    ensures OnlyDigits(d) == d
    decreases |d|
  {
    if d != [] {
      OnlyDigitsOfDigits(d[1..]);
    }
  }

  /** The runs `match(/\d+/g)` finds hold every digit of the text, in order, and
      nothing else. */
  lemma {:induction false} DigitRunsCoverDigits(s: string)
    ensures Concat(DigitRuns(s)) == OnlyDigits(s)
    decreases |s|
  {
    if s != [] {
      if IsDigit(s[0]) {
        var d := DigitPrefix(s, 10);
        var rest := s[|d|..];
        assert s == d + rest;
        assert AllDigits(d) by {
          assert forall i :: 0 <= i < |d| ==> DigitValue(d[i], 10).Some? ==> IsDigit(d[i]);
        }
        DigitRunsCoverDigits(rest);
        OnlyDigitsAppend(d, rest);
        OnlyDigitsOfDigits(d);
        assert ([d] + DigitRuns(rest))[1..] == DigitRuns(rest);
      } else {
        DigitRunsCoverDigits(s[1..]);
      }
    }
  }

  /** Text without digits adds no run. */
  lemma {:induction false} DigitRunsSkip(x: string, y: string)
    requires forall i :: 0 <= i < |x| ==> !IsDigit(x[i])
    ensures DigitRuns(x + y) == DigitRuns(y)
    decreases |x|
  {
    if x == [] {
      assert x + y == y;
    } else {
      assert (x + y)[1..] == x[1..] + y;
      DigitRunsSkip(x[1..], y);
    }
  }

  /** A run of digits that ends at a non-digit is one run. */
  lemma DigitRunsRun(d: string, y: string)
    requires d != [] && AllDigits(d) && (y == [] || !IsDigit(y[0]))
    ensures DigitRuns(d + y) == [d] + DigitRuns(y)
  {
    var s := d + y;
    DigitsAreRadixDigits(d);
    var p := DigitPrefix(s, 10);
    assert s[..|d|] == d;
    assert forall i :: 0 <= i < |d| ==> DigitValue(s[i], 10).Some?;
    assert |d| < |s| ==> DigitValue(s[|d|], 10).None?;
    assert |p| == |d|;
    assert s[|d|..] == y;
  }
}
