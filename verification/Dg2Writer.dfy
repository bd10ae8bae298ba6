/**
The DG2 writer of `apps/debugger/src/biometric/dg2.ts`.  The three loops are methods that compute
the functions above them; the rest are expressions.
*/
module Dg2Writer {
  import opened Wrappers
  import opened BigEndian
  import Dg2Parser

  type nibble = n: int | 0 <= n < 16

  method UintBytes(value: nat, length: nat) returns (r: Bytes)
    ensures r == Fixed(value, length)
  {
    var bytes := new byte[length];
    var remaining := value;
    var index := length;
    ghost var done: Bytes := [];
    while index > 0
      invariant 0 <= index <= length && bytes.Length == length
      invariant bytes[index..] == done
      invariant Fixed(value, length) == Fixed(remaining, index) + done
    {
      index := index - 1;
      bytes[index] := remaining % 256;
      assert bytes[index..] == [bytes[index]] + bytes[index + 1..];
      done := [bytes[index]] + done;
      remaining := remaining / 256;
    }
    assert bytes[..] == bytes[0..];
    r := bytes[..];
  }

  function HexDigits(n: nat): (s: seq<nibble>)
    ensures |s| > 0
  {
    if n < 16 then [n] else HexDigits(n / 16) + [n % 16]
  }

  function PadStart(s: seq<nibble>, length: nat): seq<nibble> {
    if |s| >= length then s else seq(length - |s|, _ => 0) + s
  }

  function Joined(high: nibble, low: nibble): byte {
    (high as int) * 16 + low as int
  }

  /** The byte values of the digits taken two at a time; a last single digit stands alone. */
  function Pairs(hex: seq<nibble>): Bytes {
    if hex == [] then []
    else if |hex| == 1 then [hex[0]]
    else [Joined(hex[0], hex[1])] + Pairs(hex[2..])
  }

  function TagBytes(tag: nat): Bytes {
    Pairs(PadStart(HexDigits(tag), if tag > 0xff then 4 else 2))
  }

  method EmitTag(tag: nat) returns (bytes: Bytes)
    ensures bytes == TagBytes(tag)
  {
    var hex := PadStart(HexDigits(tag), if tag > 0xff then 4 else 2);
    bytes := [];
    var index := 0;
    while index < |hex|
      invariant bytes + Pairs(hex[if index < |hex| then index else |hex|..]) == TagBytes(tag)
    {
      if index + 1 < |hex| {
        assert hex[index..][2..] == hex[index + 2..];
        bytes := bytes + [Joined(hex[index], hex[index + 1])];
      } else {
        bytes := bytes + [hex[index]];
      }
      index := index + 2;
    }
  }

  function LengthBytes(length: nat): Bytes {
    if length < 0x80 then [length]
    else [(0x80 + |Minimal(length)|) % 256] + Minimal(length)
  }

  method EmitLength(length: nat) returns (bytes: Bytes)
    ensures bytes == LengthBytes(length)
  {
    if length < 0x80 {
      return [length];
    }
    var encoded: Bytes := [];
    var remaining := length;
    while remaining > 0
      invariant Minimal(length) == Minimal(remaining) + encoded
    {
      encoded := [remaining % 256] + encoded;
      remaining := remaining / 256;
    }
    bytes := [(0x80 + |encoded|) % 256] + encoded;
  }

  function EncodeTlv(tag: nat, value: Bytes): Bytes {
    TagBytes(tag) + LengthBytes(|value|) + value
  }

  const ISO_19794_5_VERSION: nat := 0x30313000

  /** Facial record header and the length of the only face, up to its feature point count. */
  function RecordStart(imageLength: nat): (h: Bytes)
    ensures |h| == 18 && Dg2Parser.FAC_HEADER <= h
  {
    var facialRecordLength := 42 + imageLength;
    Dg2Parser.FAC_HEADER
    + (Fixed(ISO_19794_5_VERSION, 4) + Fixed(facialRecordLength, 4) + Fixed(1, 2) + Fixed(facialRecordLength, 4))
  }

  /** The rest of the facial information, and the image information up to the width. */
  function FaceInformation(imageFormat: Dg2Parser.ImageFormat): (h: Bytes)
    ensures |h| == 16
  {
    [0x00, 0x00, 0x00]
    + Fixed(0, 3) + Fixed(0, 2) + Fixed(0, 3) + Fixed(0, 3)
    + [0x00, if imageFormat.Jpeg? then 0x00 else 0x01]
  }

  function FaceRecordHeader(imageLength: nat, imageFormat: Dg2Parser.ImageFormat): (h: Bytes)
    ensures |h| == 46
  {
    RecordStart(imageLength) + Fixed(0, 2) + FaceInformation(imageFormat)
    + Fixed(0, 2) + Fixed(0, 2)
    + ([0x01, 0x02] + Fixed(0, 2) + Fixed(100, 2))
  }

  function IsoRecord(imageBytes: Bytes, imageFormat: Dg2Parser.ImageFormat): Bytes {
    FaceRecordHeader(|imageBytes|, imageFormat) + imageBytes
  }

  const NO_BYTES: Bytes := []

  function GroupValue(imageBytes: Bytes, imageFormat: Dg2Parser.ImageFormat): Bytes {
    EncodeTlv(0xa1, NO_BYTES)
    + EncodeTlv(Dg2Parser.DG2_BIOMETRIC_DATA_ALT_TAG, IsoRecord(imageBytes, imageFormat))
  }

  function RootValue(imageBytes: Bytes, imageFormat: Dg2Parser.ImageFormat): Bytes {
    EncodeTlv(0x02, [1]) + EncodeTlv(Dg2Parser.DG2_BIOMETRIC_GROUP_TAG, GroupValue(imageBytes, imageFormat))
  }

  function WrapImageAsDg2(imageBytes: Bytes, imageFormat: Dg2Parser.ImageFormat, wrapWithEfTag: bool): Bytes {
    var root := EncodeTlv(Dg2Parser.DG2_ROOT_TAG, RootValue(imageBytes, imageFormat));
    if wrapWithEfTag then EncodeTlv(Dg2Parser.DG2_FILE_TAG, root) else root
  }

  const JPEG_2000_BOX_START: Bytes := [0x00, 0x00, 0x00, 0x0c, 0x6a, 0x50, 0x20, 0x20]

  /** The format an image is taken for before it is wrapped. */
  function DetectImageFormat(bytes: Bytes): Option<Dg2Parser.ImageFormat> {
    if |bytes| >= 3 && bytes[0] == 0xff && bytes[1] == 0xd8 && bytes[2] == 0xff then Some(Dg2Parser.Jpeg)
    else if |bytes| >= 4 && bytes[0] == 0xff && bytes[1] == 0x4f && bytes[2] == 0xff && bytes[3] == 0x51
    then Some(Dg2Parser.Jpeg2000)
    else if |bytes| >= 8 && bytes[..8] == JPEG_2000_BOX_START then Some(Dg2Parser.Jpeg2000)
    else None
  }
}
