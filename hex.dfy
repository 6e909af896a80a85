/** Hexadecimal text: the device-token check and `str.decode("hex")` of
    build_msg, and the two byte-to-text encodings of device tokens. */
module Hex {
  import opened Bytes
  import opened Wrappers

  predicate IsHexDigit(c: char) {
    '0' <= c <= '9' || 'a' <= c <= 'f' || 'A' <= c <= 'F'
  }

  predicate IsLowerHexDigit(c: char) {
    '0' <= c <= '9' || 'a' <= c <= 'f'
  }

  predicate AllHexDigits(s: string) {
    forall i :: 0 <= i < |s| ==> IsHexDigit(s[i])
  }

  predicate AllLowerHexDigits(s: string) {
    forall i :: 0 <= i < |s| ==> IsLowerHexDigit(s[i])
  }

  /** The value of one hex digit, either case. */
  function HexValue(c: char): (v: nat)
    requires IsHexDigit(c)
    ensures v < 16
  {
    if c <= '9' then c as int - '0' as int
    else if c <= 'F' then c as int - 'A' as int + 10
    else c as int - 'a' as int + 10
  }

  /** The lower-case digit for a value below 16 (what `"{0:x}"` prints). */
  function HexDigit(v: nat): (c: char)
    requires v < 16
    ensures IsLowerHexDigit(c) && HexValue(c) == v
  {
    if v < 10 then ('0' as int + v) as char else ('a' as int + v - 10) as char
  }

  /** The lower-case form of a hex digit. */
  function ToLowerHexDigit(c: char): (d: char)
    requires IsHexDigit(c)
    ensures IsLowerHexDigit(d) && HexValue(d) == HexValue(c)
    ensures IsLowerHexDigit(c) ==> d == c
  {
    if 'A' <= c <= 'F' then (c as int - 'A' as int + 'a' as int) as char else c
  }

  /** A hex string with every letter turned to lower case. */
  function ToLowerHex(s: string): (r: string)
    requires AllHexDigits(s)
    ensures |r| == |s| && AllLowerHexDigits(r)
    ensures forall i :: 0 <= i < |s| ==> HexValue(r[i]) == HexValue(s[i])
  {
    if s == [] then [] else [ToLowerHexDigit(s[0])] + ToLowerHex(s[1..])
  }

  /** `s.decode("hex")` in Python 2 (binascii.a2b_hex): two digits per byte,
      either case; None where Python raises TypeError (odd length or a
      character that is not a hex digit). */
  function HexDecode(s: string): (r: Option<seq<byte>>)
    ensures r.Some? <==> |s| % 2 == 0 && AllHexDigits(s)
    ensures r.Some? ==> |r.value| == |s| / 2
  {
    if |s| == 0 then Some([])
    else if |s| == 1 || !IsHexDigit(s[0]) || !IsHexDigit(s[1]) then None
    else
      var tail := HexDecode(s[2..]);
      AllHexDigitsSplit(s);
      match tail
      case None => None
      case Some(rest) => Some([HexValue(s[0]) * 16 + HexValue(s[1])] + rest)
  }

  lemma AllHexDigitsSplit(s: string)
    requires |s| >= 2
    ensures AllHexDigits(s) <==> IsHexDigit(s[0]) && IsHexDigit(s[1]) && AllHexDigits(s[2..])
  {
    if IsHexDigit(s[0]) && IsHexDigit(s[1]) && AllHexDigits(s[2..]) {
      forall i | 2 <= i < |s| ensures IsHexDigit(s[i]) { assert s[i] == s[2..][i - 2]; }
    }
  }

  /** Two lower-case digits per byte, zero-padded (`"{0:02x}"`): the usual
      text form of a device token, and the one build_msg accepts. */
  function PaddedHex(bs: seq<byte>): (r: string)
    ensures |r| == 2 * |bs| && AllLowerHexDigits(r)
  {
    if bs == [] then ""
    else [HexDigit(bs[0] / 16), HexDigit(bs[0] % 16)] + PaddedHex(bs[1..])
  }

  /** `"{0:x}".format(b)`: lower-case hex with no padding, so one digit for
      a byte below 0x10 and two otherwise, spelling b with no leading zero. */
  function ByteHexUnpadded(b: byte): (r: string)
    ensures |r| == (if b < 16 then 1 else 2) && AllLowerHexDigits(r)
    ensures b < 16 ==> HexValue(r[0]) == b
    ensures b >= 16 ==> HexValue(r[0]) * 16 + HexValue(r[1]) == b && r[0] != '0'
  {
    if b < 16 then [HexDigit(b)] else [HexDigit(b / 16), HexDigit(b % 16)]
  }

  /** The concatenation of ByteHexUnpadded over a byte string: the text form
      of the device token that the feedback reader returns. */
  function UnpaddedHex(bs: seq<byte>): (r: string)
    ensures |bs| <= |r| <= 2 * |bs|
  {
    if bs == [] then "" else ByteHexUnpadded(bs[0]) + UnpaddedHex(bs[1..])
  }

  /** Decoding the padded text of a byte string gives the bytes back. */
  lemma {:induction false} HexDecodePaddedHex(bs: seq<byte>)
    ensures HexDecode(PaddedHex(bs)) == Some(bs)
  {
    if bs != [] {
      var s := PaddedHex(bs);
      HexDecodePaddedHex(bs[1..]);
      assert s[2..] == PaddedHex(bs[1..]);
      assert HexValue(s[0]) * 16 + HexValue(s[1]) == bs[0];
      assert [bs[0]] + bs[1..] == bs;
    }
  }

  /** Re-encoding decoded hex text gives the text back, in lower case. */
  lemma {:induction false} PaddedHexOfHexDecode(s: string)
    requires HexDecode(s).Some?
    ensures PaddedHex(HexDecode(s).value) == ToLowerHex(s)
  {
    if s != [] {
      var bs := HexDecode(s).value;
      PaddedHexOfHexDecode(s[2..]);
      var v := HexValue(s[0]) * 16 + HexValue(s[1]);
      assert bs == [v] + HexDecode(s[2..]).value;
      assert bs[1..] == HexDecode(s[2..]).value;
      assert v / 16 == HexValue(s[0]) && v % 16 == HexValue(s[1]);
      LowerDigitByValue(HexDigit(v / 16), ToLowerHexDigit(s[0]));
      LowerDigitByValue(HexDigit(v % 16), ToLowerHexDigit(s[1]));
      assert ToLowerHex(s) == [ToLowerHexDigit(s[0]), ToLowerHexDigit(s[1])] + ToLowerHex(s[2..]);
    }
  }

  /** A lower-case hex digit is determined by its value. */
  lemma LowerDigitByValue(c: char, d: char)
    requires IsLowerHexDigit(c) && IsLowerHexDigit(d) && HexValue(c) == HexValue(d)
    ensures c == d
  {
  }

  /** The unpadded text is lower-case hex, at least one and at most two
      digits per byte, and exactly two per byte only when no byte is below
      0x10 — so it can have odd length. */
  lemma {:induction false} UnpaddedHexShape(bs: seq<byte>)
    ensures AllLowerHexDigits(UnpaddedHex(bs))
    ensures |bs| <= |UnpaddedHex(bs)| <= 2 * |bs|
    ensures |UnpaddedHex(bs)| == 2 * |bs| <==> forall i :: 0 <= i < |bs| ==> bs[i] >= 16
  {
    if bs != [] {
      UnpaddedHexShape(bs[1..]);
      var r := UnpaddedHex(bs);
      var h := ByteHexUnpadded(bs[0]);
      assert r == h + UnpaddedHex(bs[1..]);
      forall i | 0 <= i < |r| ensures IsLowerHexDigit(r[i]) {
        if i >= |h| { assert r[i] == UnpaddedHex(bs[1..])[i - |h|]; }
      }
      if forall i :: 0 <= i < |bs| ==> bs[i] >= 16 {
        assert forall i :: 0 <= i < |bs[1..]| ==> bs[1..][i] >= 16 by {
          forall i | 0 <= i < |bs[1..]| ensures bs[1..][i] >= 16 { assert bs[1..][i] == bs[i + 1]; }
        }
      } else if bs[0] >= 16 {
        var j :| 0 <= j < |bs| && bs[j] < 16;
        assert bs[1..][j - 1] < 16;
      }
    }
  }

  /** When every byte is at least 0x10 the unpadded text is the padded one. */
  lemma {:induction false} UnpaddedHexIsPaddedForHighBytes(bs: seq<byte>)
    requires forall i :: 0 <= i < |bs| ==> bs[i] >= 16
    ensures UnpaddedHex(bs) == PaddedHex(bs)
  {
    if bs != [] {
      assert forall i :: 0 <= i < |bs[1..]| ==> bs[1..][i] >= 16 by {
        forall i | 0 <= i < |bs[1..]| ensures bs[1..][i] >= 16 { assert bs[1..][i] == bs[i + 1]; }
      }
      UnpaddedHexIsPaddedForHighBytes(bs[1..]);
    }
  }

  /** The unpadded text of a concatenation is the concatenation of the
      texts, so the text of a token is that of its bytes, one after another. */
  lemma {:induction false} UnpaddedHexAppend(a: seq<byte>, b: seq<byte>)
    ensures UnpaddedHex(a + b) == UnpaddedHex(a) + UnpaddedHex(b)
  {
    if a != [] {
      assert (a + b)[1..] == a[1..] + b;
      UnpaddedHexAppend(a[1..], b);
    } else {
      assert a + b == b;
    }
  }

  /** The unpadded text of a single byte is that byte's `"{0:x}"`. */
  lemma UnpaddedHexOne(x: byte)
    ensures UnpaddedHex([x]) == ByteHexUnpadded(x)
  {
    assert [x][1..] == [];
  }

  /** A token with a byte below 0x10 loses that byte's leading zero. */
  lemma UnpaddedHexLowByteExample()
    ensures UnpaddedHex([0x0A, 0x01]) == "a1"
    ensures PaddedHex([0x0A, 0x01]) == "0a01"
  {
  }

  /** Two different byte strings with the same unpadded text: the text
      does not identify the token. */
  lemma UnpaddedHexCollision()
    ensures UnpaddedHex([0x01, 0x23]) == UnpaddedHex([0x12, 0x03]) == "123"
    ensures PaddedHex([0x01, 0x23]) == "0123" && PaddedHex([0x12, 0x03]) == "1203"
  {
  }
}
