/** `decodeURIComponent` as section 19.2.6.1.1 (Decode) of ECMA-262 defines it, with
    the empty reserved set, and `encodeURIComponent` as its inverse. A string is a
    sequence of Unicode scalar values; a malformed escape or an invalid UTF-8
    sequence is the `URIError` the function throws, here `None`. */
module Uri {
  import opened Wrappers
  import Numbers

  /** The byte written by the escape `%XY` starting at index `i`, if there is one. */
  function ByteAt(s: string, i: nat): (r: Option<nat>)
    ensures r.Some? ==> r.value < 256
  {
    if i + 3 <= |s| && s[i] == '%' then
      match (Numbers.DigitValue(s[i + 1], 16), Numbers.DigitValue(s[i + 2], 16))
      case (Some(h), Some(l)) => Some(16 * h + l)
      case _ => None
    else None
  }

  /** The number of bytes of the UTF-8 sequence that a first byte announces
      (1 for a byte that cannot start a multi-byte sequence). */
  function SequenceLength(b: nat): nat {
    if b < 0x80 then 0
    else if 0xC0 <= b < 0xE0 then 2
    else if 0xE0 <= b < 0xF0 then 3
    else if 0xF0 <= b < 0xF8 then 4
    else 1
  }

  /** The payload bits a first byte of an `n`-byte sequence carries. */
  function LeadBits(b: nat, n: nat): int {
    if n == 2 then b - 0xC0 else if n == 3 then b - 0xE0 else b - 0xF0
  }

  /** The continuation bytes `j .. n-1` (the escapes at `3 j`, `3 (j+1)`, ...) folded
      into the code point begun in `acc`. */
  function Continue(s: string, j: nat, n: nat, acc: int): Option<int>
    decreases n - j
  {
    if j >= n then Some(acc)
    else match ByteAt(s, 3 * j)
      case Some(b) =>
        if 0x80 <= b < 0xC0 then Continue(s, j + 1, n, acc * 64 + (b - 0x80)) else None
      case None => None
  }

  /** Whether `cp` is what an `n`-byte sequence may encode: no overlong form, no
      surrogate, nothing above U+10FFFF. */
  predicate ValidScalar(cp: int, n: nat) {
    if n == 2 then 0x80 <= cp < 0x800
    else if n == 3 then 0x800 <= cp < 0x10000 && !(0xD800 <= cp < 0xE000)
    else 0x10000 <= cp < 0x110000
  }

  /** The character at the head of `s` and how many characters it spans. */
  function DecodeHead(s: string): (r: Option<(char, nat)>)
    requires s != []
    ensures r.Some? ==> 1 <= r.value.1 <= |s|
  {
    if s[0] != '%' then Some((s[0], 1))
    else match ByteAt(s, 0)
      case None => None
      case Some(b) =>
        if b < 0x80 then Some((b as char, 3))
        else
          var n := SequenceLength(b);
          if n == 1 || |s| < 3 * n then None
          else match Continue(s, 1, n, LeadBits(b, n))
            case None => None
            case Some(cp) => if ValidScalar(cp, n) then Some((cp as char, 3 * n)) else None
  }

  /** `decodeURIComponent(s)`; None is the `URIError` it throws. */
  function Decode(s: string): Option<string>
    decreases |s|
  {
    if s == [] then Some([])
    else match DecodeHead(s)
      case None => None
      case Some((c, k)) =>
        match Decode(s[k..])
        case None => None
        case Some(t) => Some([c] + t)
  }

  // ----- the inverse -----

  /** The characters `encodeURIComponent` leaves as they are. */
  predicate Unreserved(c: char) {
    ('A' <= c <= 'Z') || ('a' <= c <= 'z') || ('0' <= c <= '9')
    || c == '-' || c == '_' || c == '.' || c == '!' || c == '~' || c == '*'
    || c == '\'' || c == '(' || c == ')'
  }

  /** The UTF-8 encoding of `c`. */
  function Utf8(c: char): (bs: seq<nat>)
    ensures 1 <= |bs| <= 4
    ensures forall i :: 0 <= i < |bs| ==> bs[i] < 256
  {
    var cp := c as int;
    if cp < 0x80 then [cp]
    else if cp < 0x800 then [0xC0 + cp / 64, 0x80 + cp % 64]
    else if cp < 0x10000 then [0xE0 + cp / 4096, 0x80 + (cp / 64) % 64, 0x80 + cp % 64]
    else [0xF0 + cp / 262144, 0x80 + (cp / 4096) % 64, 0x80 + (cp / 64) % 64, 0x80 + cp % 64]
  }

  function HexUpper(n: nat): (c: char)
    requires n < 16
    ensures Numbers.DigitValue(c, 16) == Some(n)
  {
    if n < 10 then ('0' as int + n) as char else ('A' as int + n - 10) as char
  }

  /** Each byte as `%XY`, upper-case hexadecimal. */
  function Escapes(bs: seq<nat>): (r: string)
    requires forall i :: 0 <= i < |bs| ==> bs[i] < 256
    ensures |r| == 3 * |bs|
  {
    if bs == [] then []
    else ['%', HexUpper(bs[0] / 16), HexUpper(bs[0] % 16)] + Escapes(bs[1..])
  }

  function EncodeChar(c: char): string {
    if Unreserved(c) then [c] else Escapes(Utf8(c))
  }

  /** `encodeURIComponent(s)` (a string of scalar values never makes it throw). */
  function Encode(s: string): string {
    if s == [] then [] else EncodeChar(s[0]) + Encode(s[1..])
  }

  // ----- lemmas -----

  /** The escape of byte `j` sits at index `3 j`. */
  lemma {:induction false} EscapesAt(bs: seq<nat>, j: nat)
    requires forall i :: 0 <= i < |bs| ==> bs[i] < 256
    requires j < |bs|
    ensures var e := Escapes(bs);
            e[3 * j] == '%' && e[3 * j + 1] == HexUpper(bs[j] / 16) && e[3 * j + 2] == HexUpper(bs[j] % 16)
    decreases j
  {
    if j > 0 {
      EscapesAt(bs[1..], j - 1);
    }
  }

  lemma ByteAtEscape(t: string, i: nat, b: nat)
    requires b < 256 && i + 3 <= |t|
    requires t[i] == '%' && t[i + 1] == HexUpper(b / 16) && t[i + 2] == HexUpper(b % 16)
    ensures ByteAt(t, i) == Some(b)
  {
    assert Numbers.DigitValue(t[i + 1], 16) == Some(b / 16);
    assert Numbers.DigitValue(t[i + 2], 16) == Some(b % 16);
  }

  lemma EscapesByteAt(bs: seq<nat>, rest: string, j: nat)
    requires forall i :: 0 <= i < |bs| ==> bs[i] < 256
    requires j < |bs|
    ensures ByteAt(Escapes(bs) + rest, 3 * j) == Some(bs[j])
  {
    EscapesAt(bs, j);
    var e := Escapes(bs);
    var t := e + rest;
    var i := 3 * j;
    assert t[i] == e[i] && t[i + 1] == e[i + 1] && t[i + 2] == e[i + 2];
    ByteAtEscape(t, i, bs[j]);
  }

  /** One continuation byte folded in. */
  lemma ContinueByte(s: string, j: nat, n: nat, acc: int, b: nat)
    requires j < n && ByteAt(s, 3 * j) == Some(b) && 0x80 <= b < 0xC0
    ensures Continue(s, j, n, acc) == Continue(s, j + 1, n, acc * 64 + (b - 0x80))
  {
  }

  /** A first byte and `n - 1` continuation bytes whose payload is the scalar `cp` decode
      to `cp`. */
  lemma DecodeHeadBytes(t: string, bs: seq<nat>, cp: int)
    requires 2 <= |bs| <= 4 && |t| >= 3 * |bs|
    requires forall j :: 0 <= j < |bs| ==> ByteAt(t, 3 * j) == Some(bs[j])
    requires SequenceLength(bs[0]) == |bs| && ValidScalar(cp, |bs|)
    requires forall j :: 1 <= j < |bs| ==> 0x80 <= bs[j] < 0xC0
    requires Payload(bs) == cp
    ensures DecodeHead(t) == Some((cp as char, 3 * |bs|))
  {
    var n := |bs|;
    var a := LeadBits(bs[0], n);
    assert ByteAt(t, 0) == Some(bs[0]);
    ContinueByte(t, 1, n, a, bs[1]);
    if n == 2 {
      assert Continue(t, 1, n, a) == Some(cp);
    } else {
      var a2 := a * 64 + (bs[1] as int - 0x80);
      assert ByteAt(t, 3 * 2) == Some(bs[2]);
      ContinueByte(t, 2, n, a2, bs[2]);
      if n == 3 {
        assert Continue(t, 1, n, a) == Some(cp);
      } else {
        var a3 := a2 * 64 + (bs[2] as int - 0x80);
        assert ByteAt(t, 3 * 3) == Some(bs[3]);
        ContinueByte(t, 3, n, a3, bs[3]);
        assert Continue(t, 1, n, a) == Some(cp);
      }
    }
  }

  /** The code point a well-formed UTF-8 sequence of two to four bytes carries. */
  function Payload(bs: seq<nat>): int
    requires 2 <= |bs| <= 4
  {
    var a := LeadBits(bs[0], |bs|) * 64 + (bs[1] as int - 0x80);
    if |bs| == 2 then a
    else
      var a2 := a * 64 + (bs[2] as int - 0x80);
      if |bs| == 3 then a2 else a2 * 64 + (bs[3] as int - 0x80)
  }

  lemma Utf8Multi(c: char)
    requires 0x80 <= c as int
    ensures var bs := Utf8(c);
            2 <= |bs| && SequenceLength(bs[0]) == |bs| && ValidScalar(c as int, |bs|)
            && (forall j :: 1 <= j < |bs| ==> 0x80 <= bs[j] < 0xC0)
            && Payload(bs) == c as int
  {
    var cp := c as int;
    if cp < 0x800 {
      Utf8Two(cp);
    } else if cp < 0x10000 {
      Utf8Three(cp);
    } else {
      Utf8Four(cp);
    }
  }

  lemma Utf8Two(cp: int)
    requires 0x80 <= cp < 0x800
    ensures var bs := [0xC0 + cp / 64, 0x80 + cp % 64];
            SequenceLength(bs[0]) == 2 && 0x80 <= bs[1] < 0xC0 && Payload(bs) == cp
  {
    var a, l := cp / 64, cp % 64;
    assert a * 64 + l == cp;
    assert 2 <= a < 32;
  }

  lemma Utf8Three(cp: int)
    requires 0x800 <= cp < 0x10000
    ensures var bs := [0xE0 + cp / 4096, 0x80 + (cp / 64) % 64, 0x80 + cp % 64];
            SequenceLength(bs[0]) == 3 && 0x80 <= bs[1] < 0xC0 && 0x80 <= bs[2] < 0xC0
            && Payload(bs) == cp
  {
    var q, l := cp / 64, cp % 64;
    assert q * 64 + l == cp;
    var a, m := q / 64, q % 64;
    assert a * 64 + m == q;
    assert cp / 4096 == a;
    assert (a * 64 + m) * 64 + l == cp;
  }

  lemma Utf8Four(cp: int)
    requires 0x10000 <= cp
    ensures var bs := [0xF0 + cp / 262144, 0x80 + (cp / 4096) % 64, 0x80 + (cp / 64) % 64, 0x80 + cp % 64];
            (cp < 0x110000 ==> SequenceLength(bs[0]) == 4)
            && 0x80 <= bs[1] < 0xC0 && 0x80 <= bs[2] < 0xC0 && 0x80 <= bs[3] < 0xC0
            && Payload(bs) == cp
  {
    var q, l := cp / 64, cp % 64;
    assert q * 64 + l == cp;
    var q2, m2 := q / 64, q % 64;
    assert q2 * 64 + m2 == q;
    assert cp / 4096 == q2;
    var a, m1 := q2 / 64, q2 % 64;
    assert a * 64 + m1 == q2;
    assert cp / 262144 == a;
    assert ((a * 64 + m1) * 64 + m2) * 64 + l == cp;
  }

  lemma MultiByte(c: char, rest: string)
    requires 0x80 <= c as int
    ensures DecodeHead(Escapes(Utf8(c)) + rest) == Some((c, 3 * |Utf8(c)|))
  {
    var bs := Utf8(c);
    var t := Escapes(bs) + rest;
    Utf8Multi(c);
    forall j | 0 <= j < |bs|
      ensures ByteAt(t, 3 * j) == Some(bs[j])
    {
      EscapesByteAt(bs, rest, j);
    }
    DecodeHeadBytes(t, bs, c as int);
  }

  /** The head of an encoded string decodes to the character that was encoded. */
  lemma DecodeHeadEncoded(c: char, rest: string)
    ensures DecodeHead(EncodeChar(c) + rest) == Some((c, |EncodeChar(c)|))
  {
    var cp := c as int;
    if !Unreserved(c) {
      if cp < 0x80 {
        EscapesByteAt(Utf8(c), rest, 0);
      } else {
        MultiByte(c, rest);
      }
    }
  }

  lemma DecodeStep(c: char, rest: string)
    ensures Decode(EncodeChar(c) + rest) ==
            match Decode(rest) case None => None case Some(t) => Some([c] + t)
  {
    var e := EncodeChar(c);
    DecodeHeadEncoded(c, rest);
    assert (e + rest)[|e|..] == rest;
  }

  /** `decodeURIComponent(encodeURIComponent(s)) == s`. */
  lemma {:induction false} DecodeEncode(s: string)
    ensures Decode(Encode(s)) == Some(s)
    decreases |s|
  {
    if s != [] {
      var rest := Encode(s[1..]);
      assert Encode(s) == EncodeChar(s[0]) + rest;
      DecodeEncode(s[1..]);
      DecodeStep(s[0], rest);
      assert [s[0]] + s[1..] == s;
    }
  }

  /** Text without a `%` decodes to itself. */
  lemma {:induction false} DecodePlain(s: string)
    requires forall i :: 0 <= i < |s| ==> s[i] != '%'
    ensures Decode(s) == Some(s)
    decreases |s|
  {
    if s != [] {
      DecodePlain(s[1..]);
      assert [s[0]] + s[1..] == s;
    }
  }

  /** The escape that stands for the `m`-th byte of a sequence starting at index 0. */
  function EscapeAt(s: string, m: nat): Option<nat> {
    ByteAt(s, 3 * m)
  }

  /** A sequence of continuation bytes that folds without error is a run of escapes. */
  lemma {:induction false} ContinueEscapes(s: string, j: nat, n: nat, acc: int)
    requires Continue(s, j, n, acc).Some?
    ensures forall m :: j <= m < n ==> EscapeAt(s, m).Some?
    decreases n - j
  {
    if j < n {
      var b := ByteAt(s, 3 * j).value;
      ContinueEscapes(s, j + 1, n, acc * 64 + (b - 0x80));
    }
  }

  /** Inside an escape `%XY` that reads as a byte, the `X` and the `Y` are not `%`. */
  lemma EscapeDigits(s: string, p: nat, i: nat)
    requires ByteAt(s, p).Some? && p < i < p + 3
    ensures i < |s| && s[i] != '%'
  {
    assert Numbers.DigitValue('%', 16).None?;
  }

  /** Inside the characters that decode at the head of `s`, every `%` starts an escape
      that reads as a byte. */
  lemma HeadEscapes(s: string, i: nat)
    requires s != [] && DecodeHead(s).Some? && i < DecodeHead(s).value.1
    ensures s[i] == '%' ==> ByteAt(s, i).Some?
  {
    if s[0] == '%' && i > 0 {
      var b := ByteAt(s, 0).value;
      if b < 0x80 {
        EscapeDigits(s, 0, i);
      } else {
        var n := SequenceLength(b);
        ContinueEscapes(s, 1, n, LeadBits(b, n));
        var m := i / 3;
        if i % 3 == 0 {
          assert EscapeAt(s, m).Some?;
        } else {
          assert m == 0 || EscapeAt(s, m).Some?;
          EscapeDigits(s, 3 * m, i);
        }
      }
    }
  }

  /** A character that decodes at the head of `s` spans no `%` that fails as an escape. */
  lemma HeadAvoidsBadEscape(s: string, i: nat)
    requires s != [] && DecodeHead(s).Some?
    requires i < |s| && s[i] == '%' && ByteAt(s, i).None?
    ensures DecodeHead(s).value.1 <= i
  {
    if i < DecodeHead(s).value.1 {
      HeadEscapes(s, i);
    }
  }

  /** A `%` anywhere in `s` that is not followed by two hexadecimal digits makes the
      whole string fail. */
  lemma {:induction false} DecodeBadEscape(s: string, i: nat)
    requires i < |s| && s[i] == '%'
    requires i + 3 > |s| || Numbers.DigitValue(s[i + 1], 16).None? || Numbers.DigitValue(s[i + 2], 16).None?
    ensures Decode(s) == None
    decreases |s|
  {
    assert ByteAt(s, i).None?;
    var h := DecodeHead(s);
    if h.Some? {
      var k := h.value.1;
      HeadAvoidsBadEscape(s, i);
      assert s[k..][i - k] == s[i];
      assert i - k + 3 > |s[k..]| || (s[k..][i - k + 1] == s[i + 1] && s[k..][i - k + 2] == s[i + 2]);
      DecodeBadEscape(s[k..], i - k);
    }
  }
}
