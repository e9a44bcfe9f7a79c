/**
 * `FormatHex` and the ASCII bytes it turns into: every signature byte becomes
 * two lower-case hexadecimal digits (`{0:x2}`), high nibble first, in byte order.
 */
module Hex {
  import opened Wrappers
  import opened Streams

  predicate IsLowerHexDigit(c: char) {
    '0' <= c <= '9' || 'a' <= c <= 'f'
  }

  /** The digit `{0:x}` prints for a nibble. */
  function Digit(n: int): (c: char)
    requires 0 <= n < 16
    ensures IsLowerHexDigit(c)
    ensures n < 10 <==> c <= '9'
  {
    if n < 10 then ('0' as int + n) as char else ('a' as int + n - 10) as char
  }

  /** The nibble a lower-case digit stands for. */
  function DigitValue(c: char): (n: int)
    requires IsLowerHexDigit(c)
    ensures 0 <= n < 16
  {
    if c <= '9' then c as int - '0' as int else c as int - 'a' as int + 10
  }

  lemma DigitRoundTrip(n: int)
    requires 0 <= n < 16
    ensures DigitValue(Digit(n)) == n
  {
  }

  /** `{0:x2}` of one byte. */
  function ByteHex(b: byte): (s: string)
    ensures |s| == 2 && IsLowerHexDigit(s[0]) && IsLowerHexDigit(s[1])
    ensures DigitValue(s[0]) * 16 + DigitValue(s[1]) == b as int
  {
    DigitRoundTrip(b as int / 16);
    DigitRoundTrip(b as int % 16);
    [Digit(b as int / 16), Digit(b as int % 16)]
  }

  /** The text `FormatHex` builds: the digit pairs of the bytes, in order. */
  function HexText(bytes: seq<byte>): (s: string)
    ensures |s| == 2 * |bytes|
    ensures forall i :: 0 <= i < |s| ==> IsLowerHexDigit(s[i])
  {
    if |bytes| == 0 then "" else HexText(bytes[..|bytes| - 1]) + ByteHex(bytes[|bytes| - 1])
  }

  /** Byte `i` of the input is spelt by characters `2i` and `2i + 1`. */
  lemma {:induction false} HexTextAt(bytes: seq<byte>, i: nat)
    requires i < |bytes|
    ensures HexText(bytes)[2 * i..2 * i + 2] == ByteHex(bytes[i])
  {
    var n := |bytes| - 1;
    if i < n {
      HexTextAt(bytes[..n], i);
      assert HexText(bytes) == HexText(bytes[..n]) + ByteHex(bytes[n]);
      assert bytes[..n][i] == bytes[i];
    }
  }

  /** FormatHex: a loop appending `{0:x2}` of each byte to a string builder. */
  method FormatHex(bytes: seq<byte>) returns (s: string)
    ensures s == HexText(bytes)
  {
    s := "";
    for idx := 0 to |bytes|
      invariant s == HexText(bytes[..idx])
    {
      s := s + ByteHex(bytes[idx]);
      assert bytes[..idx + 1][..idx] == bytes[..idx];
    }
    assert bytes[..|bytes|] == bytes;
  }

  /** Text that is all ASCII turned into bytes: one byte per character, same code. */
  function Ascii(s: string): (r: seq<byte>)
    requires forall i :: 0 <= i < |s| ==> s[i] as int < 128
    ensures |r| == |s|
    ensures forall i :: 0 <= i < |s| ==> r[i] as int == s[i] as int
  {
    if |s| == 0 then [] else [s[0] as int as byte] + Ascii(s[1..])
  }

  /** The bytes written into the Contents placeholder for a signature. */
  function HexBytes(signature: seq<byte>): (r: seq<byte>)
    ensures |r| == 2 * |signature|
  {
    Ascii(HexText(signature))
  }

  predicate IsLowerHexByte(b: byte) {
    IsLowerHexDigit(b as int as char)
  }

  /**
   * Reading hexadecimal text back into bytes: the inverse of HexBytes, defined
   * independently of it. Odd length or a byte that is not a lower-case digit
   * gives None.
   */
  function DecodeHex(t: seq<byte>): (r: Option<seq<byte>>)
    ensures r.Some? ==> 2 * |r.value| == |t|
    decreases |t|
  {
    if |t| == 0 then Some([])
    else if |t| == 1 || !IsLowerHexByte(t[0]) || !IsLowerHexByte(t[1]) then None
    else
      match DecodeHex(t[2..])
      case None => None
      case Some(rest) =>
        Some([(DigitValue(t[0] as int as char) * 16 + DigitValue(t[1] as int as char)) as byte] + rest)
  }

  /** FormatHex of a concatenation is the concatenation of the texts. */
  lemma {:induction false} HexTextAppend(a: seq<byte>, b: seq<byte>)
    ensures HexText(a + b) == HexText(a) + HexText(b)
    decreases |b|
  {
    if b == [] {
      assert a + b == a;
    } else {
      var n := |b| - 1;
      assert (a + b)[..|a + b| - 1] == a + b[..n];
      assert (a + b)[|a + b| - 1] == b[n];
      HexTextAppend(a, b[..n]);
    }
  }

  /** ASCII conversion works character by character. */
  lemma AsciiAppend(s: string, t: string)
    requires forall i :: 0 <= i < |s| ==> s[i] as int < 128
    requires forall i :: 0 <= i < |t| ==> t[i] as int < 128
    ensures Ascii(s + t) == Ascii(s) + Ascii(t)
  {
    var l, r := Ascii(s + t), Ascii(s) + Ascii(t);
    assert forall i :: 0 <= i < |l| ==> l[i] as int == r[i] as int;
  }

  lemma HexBytesSplit(a: seq<byte>, b: seq<byte>)
    ensures HexBytes(a + b) == HexBytes(a) + HexBytes(b)
  {
    HexTextAppend(a, b);
    AsciiAppend(HexText(a), HexText(b));
  }

  /** Decoding what FormatHex wrote gives the signature back. */
  lemma {:induction false} DecodeHexBytes(signature: seq<byte>)
    ensures DecodeHex(HexBytes(signature)) == Some(signature)
  {
    if signature != [] {
      var b := signature[0];
      var rest := signature[1..];
      assert signature == [b] + rest;
      HexBytesSplit([b], rest);
      var t := HexBytes(signature);
      assert HexText([b]) == ByteHex(b) by {
        assert [b][..0] == [];
      }
      assert t[2..] == HexBytes(rest);
      DecodeHexBytes(rest);
    }
  }

  /** Decoding succeeds only on text HexBytes could have written. */
  lemma {:induction false} DecodeHexOnlyHexBytes(t: seq<byte>)
    requires DecodeHex(t).Some?
    ensures HexBytes(DecodeHex(t).value) == t
    decreases |t|
  {
    if t != [] {
      var rest := DecodeHex(t[2..]).value;
      DecodeHexOnlyHexBytes(t[2..]);
      var b := DecodeHex(t).value[0];
      assert DecodeHex(t).value == [b] + rest;
      HexBytesSplit([b], rest);
      assert HexText([b]) == ByteHex(b) by {
        assert [b][..0] == [];
      }
      var c0, c1 := t[0] as int as char, t[1] as int as char;
      assert ByteHex(b)[0] == c0 && ByteHex(b)[1] == c1 by {
        DigitChars(c0, c1, ByteHex(b)[0], ByteHex(b)[1]);
      }
      assert t == t[..2] + t[2..];
    }
  }

  /** Two digit pairs with the same value are the same characters. */
  lemma DigitChars(c0: char, c1: char, d0: char, d1: char)
    requires IsLowerHexDigit(c0) && IsLowerHexDigit(c1) && IsLowerHexDigit(d0) && IsLowerHexDigit(d1)
    requires DigitValue(d0) * 16 + DigitValue(d1) == DigitValue(c0) * 16 + DigitValue(c1)
    ensures d0 == c0 && d1 == c1
  {
  }
}
