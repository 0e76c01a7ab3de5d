/** The base 64 encoding of section 4 of RFC 4648 (standard alphabet, with
    `=` padding), as the submission request uses it to carry the plan. */
module Base64 {
  import opened Common

  /** The character for a 6-bit group. */
  function IndexChar(i: nat): (c: char)
    requires i < 64
  {
    if i < 26 then (('A' as int) + i) as char
    else if i < 52 then (('a' as int) + (i - 26)) as char
    else if i < 62 then (('0' as int) + (i - 52)) as char
    else if i == 62 then '+'
    else '/'
  }

  predicate IsBase64Char(c: char) {
    ('A' <= c <= 'Z') || ('a' <= c <= 'z') || ('0' <= c <= '9') || c == '+' || c == '/'
  }

  /** The 6-bit group a character of the alphabet stands for. */
  function CharIndex(c: char): (i: nat)
    requires IsBase64Char(c)
    ensures i < 64
  {
    if 'A' <= c <= 'Z' then c as int - 'A' as int
    else if 'a' <= c <= 'z' then c as int - 'a' as int + 26
    else if '0' <= c <= '9' then c as int - '0' as int + 52
    else if c == '+' then 62
    else 63
  }

  lemma IndexCharRoundTrip(i: nat)
    requires i < 64
    ensures IsBase64Char(IndexChar(i)) && CharIndex(IndexChar(i)) == i
  {
  }

  /** Three octets as four characters. */
  function EncodeBlock(b0: byte, b1: byte, b2: byte): string {
    [IndexChar(b0 / 4), IndexChar((b0 % 4) * 16 + b1 / 16),
     IndexChar((b1 % 16) * 4 + b2 / 64), IndexChar(b2 % 64)]
  }

  /** Encoding of an octet string: full blocks, then one or two trailing
      octets padded with `==` or `=`. */
  function Encode(bs: seq<byte>): (s: string)
    ensures |s| == 4 * ((|bs| + 2) / 3)
  {
    if |bs| == 0 then ""
    else if |bs| == 1 then [IndexChar(bs[0] / 4), IndexChar((bs[0] % 4) * 16), '=', '=']
    else if |bs| == 2 then
      [IndexChar(bs[0] / 4), IndexChar((bs[0] % 4) * 16 + bs[1] / 16), IndexChar((bs[1] % 16) * 4), '=']
    else EncodeBlock(bs[0], bs[1], bs[2]) + Encode(bs[3..])
  }

  /** Four characters without padding as three octets. */
  function DecodeBlock(s: string): Option<seq<byte>>
    requires |s| == 4
  {
    if IsBase64Char(s[0]) && IsBase64Char(s[1]) && IsBase64Char(s[2]) && IsBase64Char(s[3]) then
      var c0, c1, c2, c3 := CharIndex(s[0]), CharIndex(s[1]), CharIndex(s[2]), CharIndex(s[3]);
      Some([c0 * 4 + c1 / 16, (c1 % 16) * 16 + c2 / 4, (c2 % 4) * 64 + c3])
    else None
  }

  /** The last four characters, which may end in `=` or `==`. */
  function DecodeLast(s: string): Option<seq<byte>>
    requires |s| == 4
  {
    if s[2] == '=' && s[3] == '=' then
      if IsBase64Char(s[0]) && IsBase64Char(s[1]) && CharIndex(s[1]) % 16 == 0 then
        Some([CharIndex(s[0]) * 4 + CharIndex(s[1]) / 16])
      else None
    else if s[3] == '=' then
      if IsBase64Char(s[0]) && IsBase64Char(s[1]) && IsBase64Char(s[2]) && CharIndex(s[2]) % 4 == 0 then
        var c0, c1, c2 := CharIndex(s[0]), CharIndex(s[1]), CharIndex(s[2]);
        Some([c0 * 4 + c1 / 16, (c1 % 16) * 16 + c2 / 4])
      else None
    else DecodeBlock(s)
  }

  /** Decoding of a base 64 string; None for a string that no octet string encodes to. */
  function Decode(s: string): Option<seq<byte>>
    decreases |s|
  {
    if |s| == 0 then Some([])
    else if |s| < 4 then None
    else if |s| == 4 then DecodeLast(s)
    else
      match DecodeBlock(s[..4])
      case None => None
      case Some(head) =>
        match Decode(s[4..])
        case None => None
        case Some(tail) => Some(head + tail)
  }

  lemma BlockRoundTrip(b0: byte, b1: byte, b2: byte)
    ensures DecodeBlock(EncodeBlock(b0, b1, b2)) == Some([b0, b1, b2])
  {
    var c0, c1, c2, c3 := b0 / 4, (b0 % 4) * 16 + b1 / 16, (b1 % 16) * 4 + b2 / 64, b2 % 64;
    IndexCharRoundTrip(c0);
    IndexCharRoundTrip(c1);
    IndexCharRoundTrip(c2);
    IndexCharRoundTrip(c3);
    GroupsRoundTrip(b0, b1, b2);
  }

  /** The four 6-bit groups of three octets give the octets back. */
  lemma GroupsRoundTrip(b0: byte, b1: byte, b2: byte)
    ensures var c0, c1, c2, c3 := b0 / 4, (b0 % 4) * 16 + b1 / 16, (b1 % 16) * 4 + b2 / 64, b2 % 64;
      c0 * 4 + c1 / 16 == b0 && (c1 % 16) * 16 + c2 / 4 == b1 && (c2 % 4) * 64 + c3 == b2
  {
    DigitsSplit(b0 % 4, b1 / 16, 16);
    DigitsSplit(b1 % 16, b2 / 64, 4);
  }

  /** Reading back the two digits of `hi * k + lo` in base `k`, for the two
      bases the regrouping of octets into 6-bit groups uses. */
  lemma DigitsSplit(hi: nat, lo: nat, k: nat)
    requires (k == 4 || k == 16) && lo < k
    ensures (hi * k + lo) / k == hi && (hi * k + lo) % k == lo
  {
    if k == 4 {
      assert hi * k + lo == hi * 4 + lo;
    } else {
      assert hi * k + lo == hi * 16 + lo;
    }
  }

  lemma OneOctetRoundTrip(b0: byte)
    ensures Decode(Encode([b0])) == Some([b0])
  {
    IndexCharRoundTrip(b0 / 4);
    IndexCharRoundTrip((b0 % 4) * 16);
  }

  lemma TwoOctetsRoundTrip(b0: byte, b1: byte)
    ensures Decode(Encode([b0, b1])) == Some([b0, b1])
  {
    var c0, c1, c2 := b0 / 4, (b0 % 4) * 16 + b1 / 16, (b1 % 16) * 4;
    IndexCharRoundTrip(c0);
    IndexCharRoundTrip(c1);
    IndexCharRoundTrip(c2);
    assert c1 / 16 == b0 % 4 && c1 % 16 == b1 / 16;
    assert c2 / 4 == b1 % 16 && c2 % 4 == 0;
    var s := Encode([b0, b1]);
    assert s == [IndexChar(c0), IndexChar(c1), IndexChar(c2), '='];
    assert s[2] != '=';
  }

  lemma ThreeOctetsRoundTrip(b0: byte, b1: byte, b2: byte)
    ensures Decode(Encode([b0, b1, b2])) == Some([b0, b1, b2])
  {
    var block := EncodeBlock(b0, b1, b2);
    BlockRoundTrip(b0, b1, b2);
    assert Encode([b0, b1, b2]) == block + Encode([]);
    assert block + Encode([]) == block;
    assert block[3] != '=' by { IndexCharRoundTrip(b2 % 64); }
  }

  /** Decoding the encoding of any octet string gives the octets back. */
  lemma {:induction false} DecodeEncode(bs: seq<byte>)
    ensures Decode(Encode(bs)) == Some(bs)
    decreases |bs|
  {
    if |bs| == 1 {
      assert bs == [bs[0]];
      OneOctetRoundTrip(bs[0]);
    } else if |bs| == 2 {
      assert bs == [bs[0], bs[1]];
      TwoOctetsRoundTrip(bs[0], bs[1]);
    } else if |bs| == 3 {
      assert bs == [bs[0], bs[1], bs[2]];
      ThreeOctetsRoundTrip(bs[0], bs[1], bs[2]);
    } else if |bs| > 3 {
      DecodeEncode(bs[3..]);
      LongerRoundTrip(bs);
    }
  }

  lemma LongerRoundTrip(bs: seq<byte>)
    requires |bs| > 3 && Decode(Encode(bs[3..])) == Some(bs[3..])
    ensures Decode(Encode(bs)) == Some(bs)
  {
    EncodeUnfold(bs);
    SplitAfterThree(bs);
    BlockRoundTrip(bs[0], bs[1], bs[2]);
    DecodeBlockThenRest(EncodeBlock(bs[0], bs[1], bs[2]), Encode(bs[3..]), [bs[0], bs[1], bs[2]], bs[3..]);
  }

  lemma EncodeUnfold(bs: seq<byte>)
    requires |bs| > 3
    ensures Encode(bs) == EncodeBlock(bs[0], bs[1], bs[2]) + Encode(bs[3..])
  {
  }

  lemma SplitAfterThree(bs: seq<byte>)
    requires |bs| >= 3
    ensures [bs[0], bs[1], bs[2]] + bs[3..] == bs
  {
  }

  lemma DecodeBlockThenRest(block: string, rest: string, head: seq<byte>, tail: seq<byte>)
    requires |block| == 4 && |rest| > 0
    requires DecodeBlock(block) == Some(head) && Decode(rest) == Some(tail)
    ensures Decode(block + rest) == Some(head + tail)
  {
    var s := block + rest;
    assert s[..4] == block;
    assert s[4..] == rest;
  }

  /** Every character of an encoding is in the alphabet or is padding. */
  lemma {:induction false} EncodeAlphabet(bs: seq<byte>)
    ensures forall i | 0 <= i < |Encode(bs)| :: IsBase64Char(Encode(bs)[i]) || Encode(bs)[i] == '='
    decreases |bs|
  {
    if |bs| == 1 {
      IndexCharRoundTrip(bs[0] / 4);
      IndexCharRoundTrip((bs[0] % 4) * 16);
    } else if |bs| == 2 {
      IndexCharRoundTrip(bs[0] / 4);
      IndexCharRoundTrip((bs[0] % 4) * 16 + bs[1] / 16);
      IndexCharRoundTrip((bs[1] % 16) * 4);
    } else if |bs| >= 3 {
      BlockRoundTrip(bs[0], bs[1], bs[2]);
      IndexCharRoundTrip(bs[0] / 4);
      IndexCharRoundTrip((bs[0] % 4) * 16 + bs[1] / 16);
      IndexCharRoundTrip((bs[1] % 16) * 4 + bs[2] / 64);
      IndexCharRoundTrip(bs[2] % 64);
      EncodeAlphabet(bs[3..]);
    }
  }
}
