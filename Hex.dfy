/** Lowercase hexadecimal rendering of a digest, the form in which the
    platform sends its request signature. */
module Hex {
  import opened Common

  function HexDigit(d: nat): (c: char)
    requires d < 16
    ensures IsHexDigit(c)
  {
    if d < 10 then (('0' as int) + d) as char else (('a' as int) + (d - 10)) as char
  }

  predicate IsHexDigit(c: char) {
    '0' <= c <= '9' || 'a' <= c <= 'f'
  }

  /** A string the lowercase hex rendering can produce: an even number of
      lowercase hex digits. */
  predicate IsLowerHex(s: string) {
    |s| % 2 == 0 && forall i | 0 <= i < |s| :: IsHexDigit(s[i])
  }

  lemma HexDigitInjective(x: nat, y: nat)
    requires x < 16 && y < 16 && HexDigit(x) == HexDigit(y)
    ensures x == y
  {
  }

  /** Two lowercase hex digits per octet, high nibble first. */
  function HexLower(d: seq<byte>): (s: string)
    ensures |s| == 2 * |d|
    ensures forall i | 0 <= i < |d| :: s[2 * i] == HexDigit(d[i] / 16) && s[2 * i + 1] == HexDigit(d[i] % 16)
  {
    if d == [] then [] else HexLower(d[..|d| - 1]) + [HexDigit(d[|d| - 1] / 16), HexDigit(d[|d| - 1] % 16)]
  }

  /** Every rendering is lowercase hex. */
  lemma HexLowerIsLowerHex(d: seq<byte>)
    ensures IsLowerHex(HexLower(d))
  {
    var s := HexLower(d);
    forall i | 0 <= i < |s|
      ensures IsHexDigit(s[i])
    {
      var j := i / 2;
      if i % 2 == 0 {
        assert i == 2 * j;
      } else {
        assert i == 2 * j + 1;
      }
    }
  }

  /** Different digests never render to the same string, so a signature
      string names at most one digest. */
  lemma HexLowerInjective(d1: seq<byte>, d2: seq<byte>)
    requires HexLower(d1) == HexLower(d2)
    ensures d1 == d2
  {
    var s := HexLower(d1);
    assert |d1| == |d2|;
    forall i | 0 <= i < |d1|
      ensures d1[i] == d2[i]
    {
      assert s[2 * i] == HexDigit(d1[i] / 16) == HexDigit(d2[i] / 16);
      assert s[2 * i + 1] == HexDigit(d1[i] % 16) == HexDigit(d2[i] % 16);
      HexDigitInjective(d1[i] / 16, d2[i] / 16);
      HexDigitInjective(d1[i] % 16, d2[i] % 16);
    }
  }
}
