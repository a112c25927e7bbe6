/**
 * The master-fingerprint rendering of `getFingerprint`: the raw reply to the
 * GET_MASTER_FINGERPRINT command, rendered byte by byte as two lowercase hex
 * digits, joined in order and cut to the first 8 characters.
 */
module Fingerprint {
  import opened Wrappers
  import opened Hex
  import opened JsStrings

  /** An element of the reply buffer (a `Uint8Array` entry). */
  type Byte = x: int | 0 <= x < 256

  /**
   * The two-character rendering of one byte: high digit, then low digit.
   * PaddedHexStringIsByteToHex shows it is what `byte.toString(16).padStart(2, '0')` yields.
   */
  function ByteToHex(b: Byte): (r: string)
    ensures |r| == 2 && IsHexChar(r[0]) && IsHexChar(r[1])
    ensures HexValue(r[0]) * 16 + HexValue(r[1]) == b
    ensures b < 16 ==> r[0] == '0'
  {
    HexValueOfDigit(b / 16);
    HexValueOfDigit(b % 16);
    [HexDigit(b / 16), HexDigit(b % 16)]
  }

  /** `byte.toString(16).padStart(2, '0')` is ByteToHex for every byte value. */
  lemma PaddedHexStringIsByteToHex(b: Byte)
    ensures PadStart(ToHexString(b), 2, '0') == ByteToHex(b)
  {
    var digits := ToHexString(b);
    if b < 16 {
      assert digits == [HexDigit(b)];
    } else {
      assert digits == ToHexString(b / 16) + [HexDigit(b % 16)];
      assert ToHexString(b / 16) == [HexDigit(b / 16)];
    }
  }

  /** `Array.from(bytes).map(ByteToHex)`: one two-digit rendering per byte, in order. */
  function Renderings(bs: seq<Byte>): (parts: seq<string>)
    ensures |parts| == |bs|
    ensures AllPairs(parts)
    ensures forall i :: 0 <= i < |bs| ==> parts[i] == [HexDigit(bs[i] / 16), HexDigit(bs[i] % 16)]
  {
    if bs == [] then [] else [ByteToHex(bs[0])] + Renderings(bs[1..])
  }

  /** `Array.from(bytes).map(ByteToHex).join('')`. */
  function HexJoin(bs: seq<Byte>): (r: string)
    ensures |r| == 2 * |bs|
  {
    JoinPairsLength(Renderings(bs));
    Join(Renderings(bs))
  }

  /** Byte `i` of the reply is rendered, and only it, at characters `2i` and `2i + 1` of the join. */
  lemma HexJoinAt(bs: seq<Byte>, i: nat)
    requires i < |bs|
    ensures |HexJoin(bs)| == 2 * |bs|
    ensures HexJoin(bs)[2 * i] == HexDigit(bs[i] / 16)
    ensures HexJoin(bs)[2 * i + 1] == HexDigit(bs[i] % 16)
  {
    JoinPairsAt(Renderings(bs), i);
  }

  /** The rendering uses only lowercase hex digits. */
  lemma HexJoinIsHex(bs: seq<Byte>)
    ensures IsHexString(HexJoin(bs))
  {
    forall k | 0 <= k < |HexJoin(bs)|
      ensures IsHexChar(HexJoin(bs)[k])
    {
      HexJoinAt(bs, k / 2);
    }
  }

  /** Rendering the first `n` bytes gives the first `2n` characters of the whole rendering. */
  lemma HexJoinPrefix(bs: seq<Byte>, n: nat)
    requires n <= |bs|
    ensures 2 * n <= |HexJoin(bs)|
    ensures HexJoin(bs)[..2 * n] == HexJoin(bs[..n])
  {
    JoinPairsPrefix(Renderings(bs), n);
    assert Renderings(bs)[..n] == Renderings(bs[..n]);
  }

  /**
   * `getFingerprint` applied to the bytes `transport.send(0xE1, 0x05)` resolved
   * with. Shorter replies give a shorter string; nothing is rejected or padded.
   */
  function GetFingerprint(response: seq<Byte>): (fgp: string)
    ensures |fgp| == Min(8, 2 * |response|)
    ensures fgp == HexJoin(response[..Min(4, |response|)])
  {
    var joined := HexJoin(response);
    HexJoinPrefix(response, Min(4, |response|));
    Substr(joined, 0, 8)
  }

  /** Rendering a non-empty reply: the first byte's two digits, then the rest. */
  lemma HexJoinCons(bs: seq<Byte>)
    requires |bs| > 0
    ensures HexJoin(bs) == ByteToHex(bs[0]) + HexJoin(bs[1..])
  {
    assert Renderings(bs)[1..] == Renderings(bs[1..]);
  }

  /** Reading the digits back pairwise recovers every byte: the rendering is injective. */
  lemma {:induction false} DecodeHexJoin(bs: seq<Byte>)
    ensures DecodeHex(HexJoin(bs)) == Some(bs)
  {
    if bs != [] {
      HexJoinCons(bs);
      DecodeHexJoin(bs[1..]);
      var s := HexJoin(bs);
      assert s[2..] == HexJoin(bs[1..]);
      assert [bs[0]] + bs[1..] == bs;
    }
  }

  /** The 8 fingerprint characters decode to the first four reply bytes (fewer if the reply is shorter). */
  lemma FingerprintDecodes(response: seq<Byte>)
    ensures DecodeHex(GetFingerprint(response)) == Some(response[..Min(4, |response|)])
  {
    DecodeHexJoin(response[..Min(4, |response|)]);
  }

  /**
   * Two replies give the same fingerprint exactly when their first four bytes
   * (all of them, for a shorter reply) agree.
   */
  lemma FingerprintInjective(a: seq<Byte>, b: seq<Byte>)
    ensures GetFingerprint(a) == GetFingerprint(b) <==> a[..Min(4, |a|)] == b[..Min(4, |b|)]
  {
    FingerprintDecodes(a);
    FingerprintDecodes(b);
  }

  /** Bytes after the fourth, such as the status word the transport leaves on the reply, do not matter. */
  lemma FingerprintIgnoresTrailingBytes(response: seq<Byte>, trailer: seq<Byte>)
    requires |response| >= 4
    ensures GetFingerprint(response + trailer) == GetFingerprint(response)
  {
    assert (response + trailer)[..4] == response[..4];
  }

  /** A reply of at least four bytes gives the renderings of bytes 0, 1, 2 and 3, in that order. */
  lemma FingerprintOfFirstFour(response: seq<Byte>)
    requires |response| >= 4
    ensures GetFingerprint(response)
      == ByteToHex(response[0]) + ByteToHex(response[1]) + ByteToHex(response[2]) + ByteToHex(response[3])
  {
    var r := response[..4];
    HexJoinCons(r);
    HexJoinCons(r[1..]);
    HexJoinCons(r[2..]);
    HexJoinCons(r[3..]);
    assert r[3..][1..] == [];
  }

  /** A four-byte reply renders as its eight digits, values below 16 with a leading zero. */
  lemma FingerprintOfFourBytes()
    ensures GetFingerprint([0xAB, 0x01, 0x2F, 0x00]) == "ab012f00"
  {
    var reply: seq<Byte> := [0xAB, 0x01, 0x2F, 0x00];
    FingerprintOfFirstFour(reply);
    assert ByteToHex(reply[0]) == "ab" && ByteToHex(reply[1]) == "01";
    assert ByteToHex(reply[2]) == "2f" && ByteToHex(reply[3]) == "00";
  }

  /** The status word 0x9000 that follows the fingerprint on the wire is cut off. */
  lemma FingerprintWithStatusWord()
    ensures GetFingerprint([0x12, 0x34, 0x56, 0x78, 0x90, 0x00]) == "12345678"
  {
    var head: seq<Byte> := [0x12, 0x34, 0x56, 0x78];
    FingerprintOfFirstFour(head);
    assert ByteToHex(head[0]) == "12" && ByteToHex(head[1]) == "34";
    assert ByteToHex(head[2]) == "56" && ByteToHex(head[3]) == "78";
    assert GetFingerprint(head) == "12345678";
    FingerprintIgnoresTrailingBytes(head, [0x90, 0x00]);
    assert head + [0x90, 0x00] == [0x12, 0x34, 0x56, 0x78, 0x90, 0x00];
  }

  /** A one-byte reply yields a two-character string, with no error and no padding. */
  lemma FingerprintOfShortReply()
    ensures GetFingerprint([0xAB]) == "ab"
  {
    var r: seq<Byte> := [0xAB];
    assert ByteToHex(0xAB) == "ab";
    HexJoinCons(r);
    assert r[..1] == r;
  }
}
