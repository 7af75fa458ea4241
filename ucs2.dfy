/**
 * UCS-2 little-endian text as the Windows XP comment tags carry it: each
 * UTF-16 code unit becomes two bytes, low byte first, and the text ends
 * with a two-byte zero unit.
 */
module Ucs2 {
  import opened Bytes

  /** The code unit a low byte and a high byte make. */
  function CodeOf(low: Byte, high: Byte): CodeUnit {
    low as int + high as int * 0x100
  }

  /** The two bytes of every code unit, low byte first, without a terminator. */
  function Units(s: seq<CodeUnit>): seq<Byte> {
    if s == [] then []
    else
      var c := s[|s| - 1];
      Units(s[..|s| - 1]) + [c % 0x100, c / 0x100 % 0x100]
  }

  /** What `strToUcs2(s)` returns: the units followed by a zero unit. */
  function Encoding(s: seq<CodeUnit>): seq<Byte> {
    Units(s) + [0, 0]
  }

  /** The encoding loop: two bytes pushed per code unit, then the terminator. */
  method StrToUcs2(str: seq<CodeUnit>) returns (bytes: seq<Byte>)
    ensures bytes == Encoding(str)
  {
    bytes := [];
    for i := 0 to |str|
      invariant bytes == Units(str[..i])
    {
      var code := str[i];
      bytes := bytes + [code % 0x100];
      bytes := bytes + [code / 0x100 % 0x100];
      assert str[..i + 1][..i] == str[..i];
    }
    assert str[..|str|] == str;
    bytes := bytes + [0x00];
    bytes := bytes + [0x00];
  }

  /**
   * What `ucs2ToStr(b)` returns: code units read two bytes at a time, low
   * byte first, up to the first zero unit or the last whole pair.
   */
  function Decoding(b: seq<Byte>): (r: seq<CodeUnit>)
    ensures |r| <= |b| / 2
    ensures forall k :: 0 <= k < |r| ==> r[k] != 0
    decreases |b|
  {
    if |b| < 2 then []
    else
      var code := CodeOf(b[0], b[1]);
      if code == 0 then [] else [code] + Decoding(b[2..])
  }

  /** The decoding loop, which leaves early at a zero unit. */
  method Ucs2ToStr(bytes: seq<Byte>) returns (str: seq<CodeUnit>)
    ensures str == Decoding(bytes)
  {
    str := [];
    var i := 0;
    while i < |bytes| - 1
      invariant 0 <= i <= |bytes|
      invariant str + Decoding(bytes[i..]) == Decoding(bytes)
    {
      var code := CodeOf(bytes[i], bytes[i + 1]);
      if code == 0 {
        break;
      }
      assert bytes[i..][2..] == bytes[i + 2..];
      str := str + [code];
      i := i + 2;
    }
  }

  /** The code units of all whole byte pairs, low byte first; an odd last byte is dropped. */
  function Pairs(b: seq<Byte>): seq<CodeUnit> {
    seq(|b| / 2, k requires 0 <= k < |b| / 2 => CodeOf(b[2 * k], b[2 * k + 1]))
  }

  /** The longest prefix of `s` holding no zero unit. */
  function PrefixBeforeZero(s: seq<CodeUnit>): (r: seq<CodeUnit>)
    ensures r <= s
    ensures forall k :: 0 <= k < |r| ==> r[k] != 0
    ensures |r| < |s| ==> s[|r|] == 0
  {
    if s == [] || s[0] == 0 then [] else [s[0]] + PrefixBeforeZero(s[1..])
  }

  /** Decoding reads the whole pairs of the input and keeps those before the first zero unit. */
  lemma {:induction false} DecodingIsPrefixBeforeZero(b: seq<Byte>)
    ensures Decoding(b) == PrefixBeforeZero(Pairs(b))
    decreases |b|
  {
    if |b| >= 2 {
      var p := Pairs(b);
      assert p[1..] == Pairs(b[2..]) by {
        forall k | 0 <= k < |p| - 1 ensures p[1..][k] == Pairs(b[2..])[k] {
          assert b[2..][2 * k] == b[2 * (k + 1)];
          assert b[2..][2 * k + 1] == b[2 * (k + 1) + 1];
        }
      }
      DecodingIsPrefixBeforeZero(b[2..]);
    }
  }

  /** An odd trailing byte is ignored. */
  lemma DecodingIgnoresOddByte(b: seq<Byte>)
    requires |b| % 2 == 1
    ensures Decoding(b) == Decoding(b[..|b| - 1])
  {
    DecodingIsPrefixBeforeZero(b);
    var even := b[..|b| - 1];
    DecodingIsPrefixBeforeZero(even);
    forall k | 0 <= k < |b| / 2 ensures Pairs(b)[k] == Pairs(even)[k] {
      assert even[2 * k] == b[2 * k] && even[2 * k + 1] == b[2 * k + 1];
    }
    assert Pairs(b) == Pairs(even);
  }

  /** Nothing after a zero unit is read. */
  lemma {:induction false} DecodingStopsAtZero(b: seq<Byte>, rest: seq<Byte>)
    requires |b| >= 2 && |b| % 2 == 0
    requires b[|b| - 2] == 0 && b[|b| - 1] == 0
    ensures Decoding(b + rest) == Decoding(b)
    decreases |b|
  {
    if CodeOf(b[0], b[1]) != 0 {
      assert |b| > 2;
      assert (b + rest)[2..] == b[2..] + rest;
      DecodingStopsAtZero(b[2..], rest);
    }
  }

  /** Where each byte of the encoding sits. */
  lemma {:induction false} UnitsLayout(s: seq<CodeUnit>)
    ensures |Units(s)| == 2 * |s|
    ensures forall k :: 0 <= k < |s| ==> Units(s)[2 * k] == s[k] % 0x100 && Units(s)[2 * k + 1] == s[k] / 0x100
  {
    if s != [] {
      var n := |s| - 1;
      UnitsLayout(s[..n]);
      assert s[n] / 0x100 < 0x100;
      forall k | 0 <= k < n
        ensures Units(s)[2 * k] == s[k] % 0x100 && Units(s)[2 * k + 1] == s[k] / 0x100
      {
        assert s[..n][k] == s[k];
      }
    }
  }

  /**
   * The encoding is 2|s| + 2 bytes long: unit `k` at bytes `2k` (low) and
   * `2k + 1` (high), then two zero bytes.
   */
  lemma EncodingLayout(s: seq<CodeUnit>)
    ensures |Encoding(s)| == 2 * |s| + 2
    ensures forall k :: 0 <= k < |s| ==> Encoding(s)[2 * k] == s[k] % 0x100 && Encoding(s)[2 * k + 1] == s[k] / 0x100
    ensures Encoding(s)[2 * |s|] == 0 && Encoding(s)[2 * |s| + 1] == 0
  {
    UnitsLayout(s);
  }

  /** Read back in pairs, the encoding is the text followed by a zero unit. */
  lemma PairsOfEncoding(s: seq<CodeUnit>)
    ensures Pairs(Encoding(s)) == s + [0]
  {
    EncodingLayout(s);
    var e := Encoding(s);
    forall k | 0 <= k < |s| ensures Pairs(e)[k] == s[k] {
      assert CodeOf(e[2 * k], e[2 * k + 1]) == s[k] % 0x100 + s[k] / 0x100 * 0x100;
    }
  }

  /** A zero unit appended at the end changes nothing before the first zero. */
  lemma {:induction false} PrefixBeforeZeroAppendZero(s: seq<CodeUnit>)
    ensures PrefixBeforeZero(s + [0]) == PrefixBeforeZero(s)
  {
    if s != [] && s[0] != 0 {
      assert (s + [0])[1..] == s[1..] + [0];
      PrefixBeforeZeroAppendZero(s[1..]);
    }
  }

  /** Decoding an encoded text gives back the text up to its first zero unit. */
  lemma DecodeEncode(s: seq<CodeUnit>)
    ensures Decoding(Encoding(s)) == PrefixBeforeZero(s)
  {
    DecodingIsPrefixBeforeZero(Encoding(s));
    PairsOfEncoding(s);
    PrefixBeforeZeroAppendZero(s);
  }

  /** A text without a zero unit survives the round trip unchanged. */
  lemma RoundTrip(s: seq<CodeUnit>)
    requires forall k :: 0 <= k < |s| ==> s[k] != 0
    ensures Decoding(Encoding(s)) == s
  {
    DecodeEncode(s);
  }
}
