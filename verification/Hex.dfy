/** Bytes as hexadecimal text: hex.EncodeToString and hex.DecodeString. */
module Hex {
  import opened Wrappers

  type byte = b: int | 0 <= b < 256
  type Bytes = seq<byte>

  function HexDigit(n: nat): char
    requires n < 16
  {
    if n < 10 then ('0' as int + n) as char else ('a' as int + n - 10) as char
  }

  function HexValue(c: char): Option<nat> {
    if '0' <= c <= '9' then Some(c as int - '0' as int)
    else if 'a' <= c <= 'f' then Some(c as int - 'a' as int + 10)
    else if 'A' <= c <= 'F' then Some(c as int - 'A' as int + 10)
    else None
  }

  /** hex.EncodeToString */
  function EncodeToString(s: Bytes): (t: string)
    ensures |t| == 2 * |s|
  {
    if s == [] then "" else [HexDigit(s[0] / 16), HexDigit(s[0] % 16)] + EncodeToString(s[1..])
  }

  /** hex.DecodeString; None for a digit too few or a character that is no digit. */
  function DecodeString(t: string): (s: Option<Bytes>)
    ensures s.Some? ==> |t| == 2 * |s.value|
  {
    if t == "" then Some([])
    else if |t| == 1 then None
    else
      var hi, lo, rest := HexValue(t[0]), HexValue(t[1]), DecodeString(t[2..]);
      if hi.None? || lo.None? || rest.None? then None
      else
        HexValueIsSmall(t[0]);
        HexValueIsSmall(t[1]);
        Some([16 * hi.value + lo.value] + rest.value)
  }

  lemma HexValueIsSmall(c: char)
    ensures HexValue(c).Some? ==> HexValue(c).value < 16
  {
  }

  const DIGITS := "0123456789abcdef"

  /** Two digits for each byte, the high one first. */
  lemma {:induction false} EncodedDigits(s: Bytes, i: nat)
    requires i < |s|
    ensures EncodeToString(s)[2 * i] == DIGITS[s[i] / 16] && EncodeToString(s)[2 * i + 1] == DIGITS[s[i] % 16]
  {
    HexDigitIs(s[0] / 16);
    HexDigitIs(s[0] % 16);
    if i > 0 {
      EncodedDigits(s[1..], i - 1);
      var rest := EncodeToString(s[1..]);
      assert EncodeToString(s) == [HexDigit(s[0] / 16), HexDigit(s[0] % 16)] + rest;
      assert EncodeToString(s)[2 * i] == rest[2 * (i - 1)] && EncodeToString(s)[2 * i + 1] == rest[2 * (i - 1) + 1];
    }
  }

  lemma HexDigitIs(n: nat)
    requires n < 16
    ensures HexDigit(n) == DIGITS[n]
  {
  }

  predicate IsHexDigit(c: char) {
    '0' <= c <= '9' || 'a' <= c <= 'f' || 'A' <= c <= 'F'
  }

  predicate AllHex(t: string) {
    forall i | 0 <= i < |t| :: IsHexDigit(t[i])
  }

  /** Exactly the texts of an even number of digits can be decoded. */
  lemma {:induction false} DecodesExactlyWhen(t: string)
    ensures DecodeString(t).Some? <==> |t| % 2 == 0 && AllHex(t)
  {
    if |t| >= 2 {
      DecodesExactlyWhen(t[2..]);
      HexOfTwo(t);
    }
  }

  lemma HexOfTwo(t: string)
    requires |t| >= 2
    ensures AllHex(t) <==> IsHexDigit(t[0]) && IsHexDigit(t[1]) && AllHex(t[2..])
  {
    if IsHexDigit(t[0]) && IsHexDigit(t[1]) && AllHex(t[2..]) {
      forall i | 0 <= i < |t| ensures IsHexDigit(t[i]) {
        assert i >= 2 ==> t[2..][i - 2] == t[i];
      }
    }
  }

  lemma {:induction false} HexRoundTrip(s: Bytes)
    ensures DecodeString(EncodeToString(s)) == Some(s)
  {
    if s != [] {
      HexRoundTrip(s[1..]);
      assert EncodeToString(s)[2..] == EncodeToString(s[1..]);
      assert [s[0]] + s[1..] == s;
    }
  }

  predicate IsUpper(t: string) {
    exists i | 0 <= i < |t| :: 'A' <= t[i] <= 'F'
  }

  lemma HexDigitOfValue(c: char)
    requires HexValue(c).Some?
    ensures HexValue(c).value < 16 && (HexDigit(HexValue(c).value) == c <==> !('A' <= c <= 'F'))
  {
  }

  lemma {:induction false} UpperOfTwo(t: string)
    requires |t| >= 2
    ensures IsUpper(t) <==> 'A' <= t[0] <= 'F' || 'A' <= t[1] <= 'F' || IsUpper(t[2..])
  {
  }

  lemma {:induction false} EncodeFirst(hi: nat, lo: nat, rest: Bytes)
    requires hi < 16 && lo < 16
    ensures EncodeToString([16 * hi + lo] + rest) == [HexDigit(hi), HexDigit(lo)] + EncodeToString(rest)
  {
  }

  lemma SameTwo(a: char, b: char, s: string, c: char, d: char, t: string)
    ensures [a, b] + s == [c, d] + t <==> a == c && b == d && s == t
  {
    assert ([a, b] + s)[2..] == s && ([c, d] + t)[2..] == t;
    assert ([a, b] + s)[0] == a && ([a, b] + s)[1] == b;
    assert ([c, d] + t)[0] == c && ([c, d] + t)[1] == d;
  }

  /** Encoding gives back the decoded text exactly when that had no upper-case digit. */
  lemma {:induction false} DecodeThenEncode(t: string)
    requires DecodeString(t).Some?
    ensures EncodeToString(DecodeString(t).value) == t <==> !IsUpper(t)
  {
    if t != "" {
      var hi, lo, rest := HexValue(t[0]).value, HexValue(t[1]).value, DecodeString(t[2..]).value;
      DecodeThenEncode(t[2..]);
      HexDigitOfValue(t[0]);
      HexDigitOfValue(t[1]);
      UpperOfTwo(t);
      EncodeFirst(hi, lo, rest);
      SameTwo(HexDigit(hi), HexDigit(lo), EncodeToString(rest), t[0], t[1], t[2..]);
      assert t == [t[0], t[1]] + t[2..];
    }
  }

  /** The letter A repeated is text of bytes. */
  lemma {:induction false} DecodeUpper(n: nat)
    ensures DecodeString(seq(2 * n, _ => 'A')) == Some(seq(n, _ => 170))
  {
    var t := seq(2 * n, _ => 'A');
    if n > 0 {
      DecodeUpper(n - 1);
      assert t[2..] == seq(2 * (n - 1), _ => 'A');
      assert [170] + seq(n - 1, _ => 170) == seq(n, _ => 170);
    }
  }
}
