/** Reading back what the DG2 writer wrote. */
module Dg2RoundTrip {
  import opened Wrappers
  import opened BigEndian
  import opened Dg2Parser
  import opened Dg2Writer

  /** The first length the reader's four length bytes cannot hold. */
  const LENGTH_LIMIT := 0x1_0000_0000
  /** No array of the source is longer: the largest integer a JavaScript number counts exactly. */
  const MAX_SAFE_INTEGER := 0x1f_ffff_ffff_ffff

  // ---- One element ----

  /** Tags the reader reads back: one byte, or two with the multi-byte marker and no continuation. */
  predicate ReadableTag(tag: nat) {
    if tag < 0x100 then tag % 0x20 != 0x1f
    else tag < 0x1_0000 && (tag / 0x100) % 0x20 == 0x1f && tag % 0x100 < 0x80
  }

  lemma TagBytesShape(tag: nat)
    requires tag < 0x1_0000
    ensures TagBytes(tag) == if tag < 0x100 then [tag] else [tag / 0x100, tag % 0x100]
  {
    var d3: nibble, d2: nibble, d1: nibble, d0: nibble :=
      tag / 0x1000, (tag / 0x100) % 16, (tag / 16) % 16, tag % 16;
    if tag < 16 {
      assert HexDigits(tag) == [d0] && PadStart([d0], 2) == [0, d0];
      PairOfDigits(0, d0);
    } else if tag < 0x100 {
      assert HexDigits(tag) == [d1, d0];
      PairOfDigits(d1, d0);
    } else if tag < 0x1000 {
      assert HexDigits(tag / 16) == [d2, d1];
      assert HexDigits(tag) == [d2, d1, d0] && PadStart([d2, d1, d0], 4) == [0, d2, d1, d0];
      TwoPairs(0, d2, d1, d0);
    } else {
      assert HexDigits(tag / 0x100) == [d3, d2];
      assert HexDigits(tag / 16) == [d3, d2, d1];
      assert HexDigits(tag) == [d3, d2, d1, d0];
      TwoPairs(d3, d2, d1, d0);
    }
  }

  lemma PairOfDigits(a: nibble, b: nibble)
    ensures Pairs([a, b]) == [Joined(a, b)]
  {
    assert [a, b][2..] == [];
  }

  lemma TwoPairs(a: nibble, b: nibble, c: nibble, d: nibble)
    ensures Pairs([a, b, c, d]) == [Joined(a, b), Joined(c, d)]
  {
    assert [a, b, c, d][2..] == [c, d];
    PairOfDigits(c, d);
  }

  lemma Pow256Values()
    ensures Pow256(4) == LENGTH_LIMIT && Pow256(7) > MAX_SAFE_INTEGER
  {
    assert Pow256(1) == 256 && Pow256(2) == 65536 && Pow256(3) == 16777216;
    assert Pow256(4) == 4294967296 && Pow256(5) == 1099511627776 && Pow256(6) == 281474976710656;
  }

  lemma TagReadsBack(tag: nat, rest: Bytes)
    requires ReadableTag(tag)
    ensures Tag(TagBytes(tag) + rest, 0) == Ok((tag, |TagBytes(tag)|))
  {
    TagBytesShape(tag);
  }

  lemma MinimalSizes(length: nat)
    requires 0 < length <= MAX_SAFE_INTEGER
    ensures 1 <= |Minimal(length)| <= 7 && (|Minimal(length)| <= 4 <==> length < LENGTH_LIMIT)
  {
    Pow256Values();
    MinimalLength(length, 4);
    MinimalLength(length, 7);
  }

  /** A length reads back when it fits in four bytes, and is refused otherwise. */
  lemma LengthReadsBack(before: Bytes, length: nat, rest: Bytes)
    requires length <= MAX_SAFE_INTEGER
    ensures Length(before + LengthBytes(length) + rest, |before|)
         == if length < LENGTH_LIMIT then Ok((length, |before| + |LengthBytes(length)|)) else Err(TlvLengthInvalid)
  {
    hide Minimal, Number;
    var bytes := before + LengthBytes(length) + rest;
    assert bytes[|before|] == LengthBytes(length)[0];
    if length >= 0x80 {
      var m := Minimal(length);
      MinimalSizes(length);
      NumberOfMinimal(length);
      var at := |before| + 1;
      assert bytes[at..at + |m|] == m;
    }
  }

  /** Reading inverts writing, whatever follows. */
  lemma ElementReadsBack(tag: nat, value: Bytes, rest: Bytes)
    requires ReadableTag(tag) && |value| <= MAX_SAFE_INTEGER
    ensures Element(EncodeTlv(tag, value) + rest, 0)
         == if |value| < LENGTH_LIMIT then Ok(Tlv(tag, value, |EncodeTlv(tag, value)|)) else Err(TlvLengthInvalid)
  {
    hide TagBytes, LengthBytes, Tag, Length;
    var bytes := EncodeTlv(tag, value) + rest;
    var t, l := TagBytes(tag), LengthBytes(|value|);
    assert bytes == t + (l + value + rest) == t + l + (value + rest);
    TagReadsBack(tag, l + value + rest);
    LengthReadsBack(t, |value|, value + rest);
    var at := |t| + |l|;
    assert bytes[at..at + |value|] == value;
  }

  /** Reading at an offset is reading the bytes from there on. */
  lemma {:induction false} TagTailShift(before: Bytes, bytes: Bytes, offset: nat, tag: nat)
    ensures TagTail(before + bytes, |before| + offset, tag)
         == match TagTail(bytes, offset, tag)
            case Ok((t, next)) => Ok((t, |before| + next))
            case Err(e) => Err(e)
    decreases |bytes| - offset
  {
    if offset < |bytes| {
      assert (before + bytes)[|before| + offset] == bytes[offset];
      if bytes[offset] >= 0x80 {
        TagTailShift(before, bytes, offset + 1, tag * 256 + bytes[offset]);
      }
    }
  }

  lemma LengthShift(before: Bytes, bytes: Bytes, offset: nat)
    ensures Length(before + bytes, |before| + offset)
         == match Length(bytes, offset)
            case Ok((l, next)) => Ok((l, |before| + next))
            case Err(e) => Err(e)
  {
    if offset < |bytes| {
      assert (before + bytes)[|before| + offset] == bytes[offset];
      var count := bytes[offset] % 0x80;
      if offset + 1 + count <= |bytes| {
        var at := |before| + offset + 1;
        assert (before + bytes)[at..at + count] == bytes[offset + 1..offset + 1 + count];
      }
    }
  }

  lemma TagShift(before: Bytes, bytes: Bytes)
    ensures Tag(before + bytes, |before|)
         == match Tag(bytes, 0)
            case Ok((t, next)) => Ok((t, |before| + next))
            case Err(e) => Err(e)
  {
    if bytes != [] {
      assert (before + bytes)[|before|] == bytes[0];
      TagTailShift(before, bytes, 1, bytes[0]);
    }
  }

  lemma ElementShift(before: Bytes, bytes: Bytes)
    ensures Element(before + bytes, |before|)
         == match Element(bytes, 0)
            case Ok(e) => Ok(Tlv(e.tag, e.value, |before| + e.nextOffset))
            case Err(e) => Err(e)
  {
    hide Tag, Length;
    TagShift(before, bytes);
    var tag := Tag(bytes, 0);
    if tag.Ok? {
      LengthShift(before, bytes, tag.value.1);
      var length := Length(bytes, tag.value.1);
      if length.Ok? && length.value.1 + length.value.0 <= |bytes| {
        var next, l := length.value.1, length.value.0;
        assert (before + bytes)[|before| + next..|before| + next + l] == bytes[next..next + l];
      }
    }
  }

  // ---- The face record ----

  lemma HeaderShape(imageLength: nat, format: ImageFormat)
    ensures var h := FaceRecordHeader(imageLength, format);
            && FAC_HEADER <= h
            && h[18..20] == Fixed(0, 2) && h[36..38] == Fixed(0, 2) && h[38..40] == Fixed(0, 2)
  {
    hide RecordStart, FaceInformation, Fixed;
  }

  /** The record reads back as the image with the format its first bytes name, if they name one. */
  lemma RecordReadsBack(image: Bytes, format: ImageFormat)
    ensures FaceRecord(IsoRecord(image, format))
         == if image == [] then Err(ImageMissing)
            else match SignatureFormat(image)
                 case None => Err(ImageFormatUnsupported)
                 case Some(f) => Ok(FaceImage(image, f, 0, 0))
  {
    var h, data := FaceRecordHeader(|image|, format), IsoRecord(image, format);
    HeaderShape(|image|, format);
    hide FaceRecordHeader;
    assert data[18..20] == h[18..20] && data[36..38] == h[36..38] && data[38..40] == h[38..40];
    assert FAC_HEADER <= data;
    NumberOfFixed(0, 2);
    assert data[46..] == image;
  }

  // ---- The whole file ----

  lemma EncodedSize(tag: nat, value: Bytes)
    requires tag < 0x1_0000 && |value| <= MAX_SAFE_INTEGER
    ensures |value| < |EncodeTlv(tag, value)| <= |value| + 10
  {
    TagBytesShape(tag);
    Pow256Values();
    MinimalLength(|value|, 7);
  }

  /** The group's one header element is skipped and the data element found. */
  lemma GroupReadsBack(image: Bytes, format: ImageFormat)
    requires |IsoRecord(image, format)| < LENGTH_LIMIT
    ensures BiometricData(GroupValue(image, format), 0) == Ok(IsoRecord(image, format))
  {
    hide Element, EncodeTlv, IsoRecord;
    var header, record := EncodeTlv(0xa1, NO_BYTES), IsoRecord(image, format);
    var data := EncodeTlv(DG2_BIOMETRIC_DATA_ALT_TAG, record);
    ElementReadsBack(0xa1, NO_BYTES, data);
    ElementReadsBack(DG2_BIOMETRIC_DATA_ALT_TAG, record, []);
    assert data + [] == data;
    ElementShift(header, data);
  }

  lemma RootReadsBack(image: Bytes, format: ImageFormat)
    requires |GroupValue(image, format)| < LENGTH_LIMIT
    ensures Group(RootValue(image, format)) == Ok(GroupValue(image, format))
  {
    hide Element, EncodeTlv, GroupValue;
    var count, value := EncodeTlv(0x02, [1]), GroupValue(image, format);
    var group := EncodeTlv(DG2_BIOMETRIC_GROUP_TAG, value);
    ElementReadsBack(0x02, [1], group);
    ElementReadsBack(DG2_BIOMETRIC_GROUP_TAG, value, []);
    assert group + [] == group;
    ElementShift(count, group);
  }

  /** The value of the outermost element, whose length is the largest one written. */
  function OutermostValue(image: Bytes, format: ImageFormat, wrapWithEfTag: bool): Bytes {
    if wrapWithEfTag then EncodeTlv(DG2_ROOT_TAG, RootValue(image, format)) else RootValue(image, format)
  }

  lemma Sizes(image: Bytes, format: ImageFormat)
    requires |image| <= MAX_SAFE_INTEGER - 200
    ensures |image| < |IsoRecord(image, format)| < |GroupValue(image, format)| < |RootValue(image, format)|
         <= |image| + 100
  {
    HeaderShape(|image|, format);
    hide FaceRecordHeader, EncodeTlv;
    EncodedSize(0xa1, NO_BYTES);
    EncodedSize(DG2_BIOMETRIC_DATA_ALT_TAG, IsoRecord(image, format));
    EncodedSize(0x02, [1]);
    EncodedSize(DG2_BIOMETRIC_GROUP_TAG, GroupValue(image, format));
  }

  lemma FileReadsBack(image: Bytes, format: ImageFormat, wrapWithEfTag: bool)
    requires |image| <= MAX_SAFE_INTEGER - 200
    ensures Root(WrapImageAsDg2(image, format, wrapWithEfTag))
         == if |OutermostValue(image, format, wrapWithEfTag)| < LENGTH_LIMIT then Ok(RootValue(image, format))
            else Err(TlvLengthInvalid)
  {
    hide Element, EncodeTlv, RootValue, GroupValue, IsoRecord;
    Sizes(image, format);
    var value := RootValue(image, format);
    var root := EncodeTlv(DG2_ROOT_TAG, value);
    EncodedSize(DG2_ROOT_TAG, value);
    ElementReadsBack(DG2_ROOT_TAG, value, []);
    assert root + [] == root;
    if wrapWithEfTag {
      ElementReadsBack(DG2_FILE_TAG, root, []);
      var file := EncodeTlv(DG2_FILE_TAG, root);
      assert file + [] == file;
    }
  }

  /**
  The round trip, for every image, stated format and choice of outer tag: extraction gives back
  exactly the image, with the format its signature names and zero dimensions, if and only if the
  outermost length fits in four bytes and the signature is one the reader supports; otherwise it
  fails with the error shown.
  */
  lemma RoundTrip(image: Bytes, format: ImageFormat, wrapWithEfTag: bool)
    requires |image| <= MAX_SAFE_INTEGER - 200
    ensures Extract(WrapImageAsDg2(image, format, wrapWithEfTag))
         == if |OutermostValue(image, format, wrapWithEfTag)| >= LENGTH_LIMIT then Err(TlvLengthInvalid)
            else if image == [] then Err(ImageMissing)
            else match SignatureFormat(image)
                 case None => Err(ImageFormatUnsupported)
                 case Some(f) => Ok(FaceImage(image, f, 0, 0))
  {
    FileReadsBack(image, format, wrapWithEfTag);
    Sizes(image, format);
    hide Root, Group, BiometricData, FaceRecord, WrapImageAsDg2, IsoRecord, GroupValue, SignatureFormat;
    if |OutermostValue(image, format, wrapWithEfTag)| < LENGTH_LIMIT {
      EncodedSize(DG2_ROOT_TAG, RootValue(image, format));
      hide RootValue, EncodeTlv;
      RootReadsBack(image, format);
      GroupReadsBack(image, format);
      RecordReadsBack(image, format);
    }
  }

  // ---- The two signature tests ----

  /** The box signature is tested on 8 bytes by the writer's side and on 12 by the reader. */
  predicate CutBoxSignature(image: Bytes) {
    JPEG_2000_BOX_START <= image && !(JPEG_2000_FILE_SIGNATURE <= image)
  }

  /**
  An image the debugger detects reads back with the detected format, except exactly the boxed
  JPEG 2000 files whose signature box is not completed by 0d 0a 87 0a.
  */
  lemma DetectedImagesReadBack(image: Bytes, wrapWithEfTag: bool)
    requires DetectImageFormat(image).Some?
    requires |OutermostValue(image, DetectImageFormat(image).value, wrapWithEfTag)| < LENGTH_LIMIT
    requires |image| <= MAX_SAFE_INTEGER - 200
    ensures var format := DetectImageFormat(image).value;
            var r := Extract(WrapImageAsDg2(image, format, wrapWithEfTag));
            && (r == Ok(FaceImage(image, format, 0, 0)) <==> !CutBoxSignature(image))
            && (r == Err(ImageFormatUnsupported) <==> CutBoxSignature(image))
  {
    DetectionAndSignature(image);
    RoundTrip(image, DetectImageFormat(image).value, wrapWithEfTag);
    hide Extract, WrapImageAsDg2, OutermostValue, DetectImageFormat, SignatureFormat, CutBoxSignature;
  }

  lemma PrefixByIndex(prefix: Bytes, bytes: Bytes)
    ensures prefix <= bytes <==> |prefix| <= |bytes| && forall i | 0 <= i < |prefix| :: bytes[i] == prefix[i]
  {
  }

  lemma DetectionAndSignature(image: Bytes)
    requires DetectImageFormat(image).Some?
    ensures image != []
    ensures SignatureFormat(image) == if CutBoxSignature(image) then None else DetectImageFormat(image)
  {
    PrefixByIndex(JPEG_SIGNATURE, image);
    PrefixByIndex(JPEG_2000_CODESTREAM_SIGNATURE, image);
    PrefixByIndex(JPEG_2000_BOX_START, image);
    PrefixByIndex(JPEG_2000_FILE_SIGNATURE, image);
    if |image| >= 8 && image[..8] == JPEG_2000_BOX_START {
      assert image[0] == 0x00;
    }
  }
}
