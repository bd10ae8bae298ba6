/**
The DG2 reader of `packages/config/src/dg2-face-image.ts`: BER-TLV (ITU-T X.690, sections 8.1.2 and
8.1.3) down to the face record of ISO/IEC 19794-5.  Each loop is a method that computes the function
above it.
*/
module Dg2Parser {
  import opened Wrappers
  import opened BigEndian

  datatype ImageFormat = Jpeg | Jpeg2000

  datatype FaceImage = FaceImage(imageData: Bytes, imageFormat: ImageFormat, imageHeight: nat, imageWidth: nat)

  datatype Error =
    | OutOfBounds
    | TlvOutOfBounds | TlvTagTruncated | TlvLengthTruncated | TlvLengthInvalid | TlvValueTruncated
    | FacHeaderInvalid | ImageMissing | ImageFormatUnsupported
    | RootTagInvalid | InstanceCountMissing | BiometricGroupMissing | BiometricDataMissing

  datatype Tlv = Tlv(tag: nat, value: Bytes, nextOffset: nat)

  const FAC_HEADER: Bytes := [0x46, 0x41, 0x43, 0x00]
  const JPEG_SIGNATURE: Bytes := [0xff, 0xd8, 0xff]
  const JPEG_2000_FILE_SIGNATURE: Bytes :=
    [0x00, 0x00, 0x00, 0x0c, 0x6a, 0x50, 0x20, 0x20, 0x0d, 0x0a, 0x87, 0x0a]
  const JPEG_2000_CODESTREAM_SIGNATURE: Bytes := [0xff, 0x4f, 0xff, 0x51]
  const DG2_FILE_TAG: nat := 0x75
  const DG2_ROOT_TAG: nat := 0x7f61
  const DG2_BIOMETRIC_GROUP_TAG: nat := 0x7f60
  const DG2_BIOMETRIC_DATA_TAG: nat := 0x7f2e
  const DG2_BIOMETRIC_DATA_ALT_TAG: nat := 0x5f2e

  method StartsWithBytes(bytes: Bytes, prefix: Bytes) returns (r: bool)
    ensures r <==> prefix <= bytes
  {
    if |bytes| < |prefix| {
      return false;
    }
    for index := 0 to |prefix|
      invariant prefix[..index] == bytes[..index]
    {
      if bytes[index] != prefix[index] {
        return false;
      }
      assert prefix[..index + 1] == prefix[..index] + [prefix[index]];
      assert bytes[..index + 1] == bytes[..index] + [bytes[index]];
    }
    assert prefix[..|prefix|] == prefix;
    r := true;
  }

  // ---- Numbers, tags, lengths ----

  function Uint(bytes: Bytes, offset: int, length: int): Result<nat, Error> {
    if offset < 0 || length <= 0 || offset + length > |bytes| then Err(OutOfBounds)
    else Ok(Number(bytes[offset..offset + length]))
  }

  method ReadUint(bytes: Bytes, offset: int, length: int) returns (r: Result<nat, Error>)
    ensures r == Uint(bytes, offset, length)
  {
    if offset < 0 || length <= 0 || offset + length > |bytes| {
      return Err(OutOfBounds);
    }
    var value: nat := 0;
    for index := 0 to length
      invariant value == Number(bytes[offset..offset + index])
    {
      NumberStep(bytes, offset, index);
      value := value * 256 + bytes[offset + index];
    }
    r := Ok(value);
  }

  /** The rest of a multi-byte tag, up to its first byte without the continuation bit. */
  function TagTail(bytes: Bytes, offset: nat, tag: nat): (r: Result<(nat, nat), Error>)
    ensures r.Ok? ==> offset < r.value.1 <= |bytes|
    decreases |bytes| - offset
  {
    if offset >= |bytes| then Err(TlvTagTruncated)
    else if bytes[offset] >= 0x80 then TagTail(bytes, offset + 1, tag * 256 + bytes[offset])
    else Ok((tag * 256 + bytes[offset], offset + 1))
  }

  function Tag(bytes: Bytes, start: nat): (r: Result<(nat, nat), Error>)
    ensures r.Ok? ==> start < r.value.1 <= |bytes|
  {
    if start >= |bytes| then Err(TlvOutOfBounds)
    else if bytes[start] % 0x20 != 0x1f then Ok((bytes[start], start + 1))
    else TagTail(bytes, start + 1, bytes[start])
  }

  method ReadTlvTag(bytes: Bytes, startOffset: nat) returns (r: Result<(nat, nat), Error>)
    ensures r == Tag(bytes, startOffset)
  {
    if startOffset >= |bytes| {
      return Err(TlvOutOfBounds);
    }
    var offset := startOffset;
    var tag: nat := bytes[offset];
    offset := offset + 1;
    if tag % 0x20 != 0x1f {
      return Ok((tag, offset));
    }
    var nextTagByte: byte := 0x80;
    while nextTagByte >= 0x80
      invariant offset <= |bytes|
      invariant Tag(bytes, startOffset)
             == if nextTagByte >= 0x80 then TagTail(bytes, offset, tag) else Ok((tag, offset))
      decreases |bytes| - offset, nextTagByte
    {
      if offset >= |bytes| {
        return Err(TlvTagTruncated);
      }
      nextTagByte := bytes[offset];
      tag := tag * 256 + nextTagByte;
      offset := offset + 1;
    }
    r := Ok((tag, offset));
  }

  function Length(bytes: Bytes, start: nat): (r: Result<(nat, nat), Error>)
    ensures r.Ok? ==> start < r.value.1 <= |bytes|
  {
    if start >= |bytes| then Err(TlvLengthTruncated)
    else if bytes[start] < 0x80 then Ok((bytes[start], start + 1))
    else
      var count := bytes[start] % 0x80;
      if count == 0 || count > 4 || start + 1 + count > |bytes| then Err(TlvLengthInvalid)
      else Ok((Number(bytes[start + 1..start + 1 + count]), start + 1 + count))
  }

  method ReadTlvLength(bytes: Bytes, startOffset: nat) returns (r: Result<(nat, nat), Error>)
    ensures r == Length(bytes, startOffset)
  {
    if startOffset >= |bytes| {
      return Err(TlvLengthTruncated);
    }
    var firstLengthByte := bytes[startOffset];
    var offset := startOffset + 1;
    if firstLengthByte < 0x80 {
      return Ok((firstLengthByte, offset));
    }
    var lengthByteCount := firstLengthByte % 0x80;
    if lengthByteCount == 0 || lengthByteCount > 4 || offset + lengthByteCount > |bytes| {
      return Err(TlvLengthInvalid);
    }
    var length: nat := 0;
    for index := 0 to lengthByteCount
      invariant length == Number(bytes[offset..offset + index])
    {
      NumberStep(bytes, offset, index);
      length := length * 256 + bytes[offset + index];
    }
    r := Ok((length, offset + lengthByteCount));
  }

  /** One element at `start`: it lies within `bytes`, and the next one begins strictly later. */
  function Element(bytes: Bytes, start: nat): (r: Result<Tlv, Error>)
    ensures r.Ok? ==>
              && start < r.value.nextOffset <= |bytes|
              && |r.value.value| < r.value.nextOffset - start
              && r.value.value == bytes[r.value.nextOffset - |r.value.value|..r.value.nextOffset]
  {
    match Tag(bytes, start)
    case Err(e) => Err(e)
    case Ok((tag, valueOffset)) =>
      match Length(bytes, valueOffset)
      case Err(e) => Err(e)
      case Ok((length, next)) =>
        if next + length > |bytes| then Err(TlvValueTruncated)
        else Ok(Tlv(tag, bytes[next..next + length], next + length))
  }

  method ReadTlv(bytes: Bytes, startOffset: nat) returns (r: Result<Tlv, Error>)
    ensures r == Element(bytes, startOffset)
  {
    var tag := ReadTlvTag(bytes, startOffset);
    if tag.Err? {
      return Err(tag.error);
    }
    var length := ReadTlvLength(bytes, tag.value.1);
    if length.Err? {
      return Err(length.error);
    }
    var nextOffset := length.value.1;
    if nextOffset + length.value.0 > |bytes| {
      return Err(TlvValueTruncated);
    }
    r := Ok(Tlv(tag.value.0, bytes[nextOffset..nextOffset + length.value.0], nextOffset + length.value.0));
  }

  // ---- The face record ----

  function SignatureFormat(image: Bytes): Option<ImageFormat> {
    if JPEG_SIGNATURE <= image then Some(Jpeg)
    else if JPEG_2000_FILE_SIGNATURE <= image || JPEG_2000_CODESTREAM_SIGNATURE <= image then Some(Jpeg2000)
    else None
  }

  const FEATURE_POINT_COUNT_OFFSET := 18
  const FEATURE_POINTS_OFFSET := 34
  const FEATURE_POINT_SIZE := 8

  function FaceRecord(data: Bytes): Result<FaceImage, Error> {
    if !(FAC_HEADER <= data) then Err(FacHeaderInvalid)
    else
      match Uint(data, FEATURE_POINT_COUNT_OFFSET, 2)
      case Err(e) => Err(e)
      case Ok(featurePoints) =>
        var info := FEATURE_POINTS_OFFSET + featurePoints * FEATURE_POINT_SIZE;
        match Uint(data, info + 2, 2)
        case Err(e) => Err(e)
        case Ok(width) =>
          match Uint(data, info + 4, 2)
          case Err(e) => Err(e)
          case Ok(height) =>
            if info + 12 >= |data| then Err(ImageMissing)
            else
              match SignatureFormat(data[info + 12..])
              case None => Err(ImageFormatUnsupported)
              case Some(format) => Ok(FaceImage(data[info + 12..], format, height, width))
  }

  method ParseIso197945FaceImage(data: Bytes) returns (r: Result<FaceImage, Error>)
    ensures r == FaceRecord(data)
  {
    var headerOk := StartsWithBytes(data, FAC_HEADER);
    if !headerOk {
      return Err(FacHeaderInvalid);
    }
    var offset: nat := |FAC_HEADER|;
    offset := offset + 4;
    offset := offset + 4;
    offset := offset + 2;
    offset := offset + 4;
    var featurePointCount := ReadUint(data, offset, 2);
    if featurePointCount.Err? {
      return Err(featurePointCount.error);
    }
    offset := offset + 2;
    offset := offset + 1 + 1 + 1;
    offset := offset + 3;
    offset := offset + 2;
    offset := offset + 3;
    offset := offset + 3;
    offset := offset + featurePointCount.value * FEATURE_POINT_SIZE;
    offset := offset + 1 + 1;
    var imageWidth := ReadUint(data, offset, 2);
    if imageWidth.Err? {
      return Err(imageWidth.error);
    }
    offset := offset + 2;
    var imageHeight := ReadUint(data, offset, 2);
    if imageHeight.Err? {
      return Err(imageHeight.error);
    }
    offset := offset + 2;
    offset := offset + 1 + 1;
    offset := offset + 2;
    offset := offset + 2;
    if offset >= |data| {
      return Err(ImageMissing);
    }
    var imageData := data[offset..];
    var isJpeg := StartsWithBytes(imageData, JPEG_SIGNATURE);
    if isJpeg {
      return Ok(FaceImage(imageData, Jpeg, imageHeight.value, imageWidth.value));
    }
    var isFile := StartsWithBytes(imageData, JPEG_2000_FILE_SIGNATURE);
    var isCodestream := StartsWithBytes(imageData, JPEG_2000_CODESTREAM_SIGNATURE);
    if isFile || isCodestream {
      return Ok(FaceImage(imageData, Jpeg2000, imageHeight.value, imageWidth.value));
    }
    r := Err(ImageFormatUnsupported);
  }

  // ---- The whole file ----

  /** The first biometric data element among the children of the group from `offset` on. */
  function BiometricData(group: Bytes, offset: nat): (r: Result<Bytes, Error>)
    requires offset <= |group|
    decreases |group| - offset
  {
    if offset >= |group| then Err(BiometricDataMissing)
    else
      match Element(group, offset)
      case Err(e) => Err(e)
      case Ok(child) =>
        if child.tag == DG2_BIOMETRIC_DATA_ALT_TAG || child.tag == DG2_BIOMETRIC_DATA_TAG then Ok(child.value)
        else BiometricData(group, child.nextOffset)
  }

  function Root(dg2: Bytes): Result<Bytes, Error> {
    match Element(dg2, 0)
    case Err(e) => Err(e)
    case Ok(outer) =>
      if outer.tag != DG2_FILE_TAG then
        (if outer.tag == DG2_ROOT_TAG then Ok(outer.value) else Err(RootTagInvalid))
      else
        match Element(outer.value, 0)
        case Err(e) => Err(e)
        case Ok(root) => if root.tag == DG2_ROOT_TAG then Ok(root.value) else Err(RootTagInvalid)
  }

  function Group(root: Bytes): Result<Bytes, Error> {
    match Element(root, 0)
    case Err(e) => Err(e)
    case Ok(instances) =>
      if instances.tag != 0x02 then Err(InstanceCountMissing)
      else
        match Element(root, instances.nextOffset)
        case Err(e) => Err(e)
        case Ok(group) =>
          if group.tag != DG2_BIOMETRIC_GROUP_TAG then Err(BiometricGroupMissing) else Ok(group.value)
  }

  function Extract(dg2: Bytes): Result<FaceImage, Error> {
    match Root(dg2)
    case Err(e) => Err(e)
    case Ok(root) =>
      match Group(root)
      case Err(e) => Err(e)
      case Ok(group) =>
        match BiometricData(group, 0)
        case Err(e) => Err(e)
        case Ok(data) => FaceRecord(data)
  }

  method ExtractDg2FaceImage(dg2: Bytes) returns (r: Result<FaceImage, Error>)
    ensures r == Extract(dg2)
  {
    hide FaceRecord, Element;
    var outer := ReadTlv(dg2, 0);
    if outer.Err? {
      return Err(outer.error);
    }
    var root := outer;
    if outer.value.tag == DG2_FILE_TAG {
      root := ReadTlv(outer.value.value, 0);
      if root.Err? {
        return Err(root.error);
      }
    }
    if root.value.tag != DG2_ROOT_TAG {
      return Err(RootTagInvalid);
    }
    var numberOfInstances := ReadTlv(root.value.value, 0);
    if numberOfInstances.Err? {
      return Err(numberOfInstances.error);
    }
    if numberOfInstances.value.tag != 0x02 {
      return Err(InstanceCountMissing);
    }
    var biometricGroup := ReadTlv(root.value.value, numberOfInstances.value.nextOffset);
    if biometricGroup.Err? {
      return Err(biometricGroup.error);
    }
    if biometricGroup.value.tag != DG2_BIOMETRIC_GROUP_TAG {
      return Err(BiometricGroupMissing);
    }
    var group := biometricGroup.value.value;
    var groupOffset := 0;
    while groupOffset < |group|
      invariant groupOffset <= |group|
      invariant BiometricData(group, 0) == BiometricData(group, groupOffset)
    {
      var child := ReadTlv(group, groupOffset);
      if child.Err? {
        return Err(child.error);
      }
      if child.value.tag == DG2_BIOMETRIC_DATA_ALT_TAG || child.value.tag == DG2_BIOMETRIC_DATA_TAG {
        r := ParseIso197945FaceImage(child.value.value);
        return;
      }
      groupOffset := child.value.nextOffset;
    }
    r := Err(BiometricDataMissing);
  }

  // ---- On arbitrary bytes ----

  ghost predicate IsSlice(part: Bytes, whole: Bytes) {
    exists i, j | 0 <= i <= j <= |whole| :: part == whole[i..j]
  }

  lemma SliceOfSlice(a: Bytes, b: Bytes, c: Bytes)
    requires IsSlice(a, b) && IsSlice(b, c)
    ensures IsSlice(a, c)
  {
    var i, j :| 0 <= i <= j <= |b| && a == b[i..j];
    var k, l :| 0 <= k <= l <= |c| && b == c[k..l];
    assert forall m | 0 <= m < j - i :: a[m] == b[i + m] == c[k + i + m];
    assert a == c[k + i..k + j];
  }

  lemma {:induction false} DataIsSlice(group: Bytes, offset: nat)
    requires offset <= |group| && BiometricData(group, offset).Ok?
    ensures IsSlice(BiometricData(group, offset).value, group)
    decreases |group| - offset
  {
    var child := Element(group, offset).value;
    if !(child.tag == DG2_BIOMETRIC_DATA_ALT_TAG || child.tag == DG2_BIOMETRIC_DATA_TAG) {
      DataIsSlice(group, child.nextOffset);
    }
  }

  lemma RootIsSlice(dg2: Bytes)
    requires Root(dg2).Ok?
    ensures IsSlice(Root(dg2).value, dg2)
  {
    var outer := Element(dg2, 0).value;
    if outer.tag == DG2_FILE_TAG {
      var root := Element(outer.value, 0).value;
      assert IsSlice(root.value, outer.value);
      SliceOfSlice(root.value, outer.value, dg2);
    }
  }

  /**
  Whatever the bytes: a returned image is a contiguous part of the input, not empty, and begins with
  a signature of the format reported for it.
  */
  lemma ExtractedIsSlice(dg2: Bytes)
    requires Extract(dg2).Ok?
    ensures var face := Extract(dg2).value;
            && IsSlice(face.imageData, dg2) && face.imageData != []
            && (face.imageFormat == Jpeg ==> JPEG_SIGNATURE <= face.imageData)
            && (face.imageFormat == Jpeg2000 ==>
                  || JPEG_2000_FILE_SIGNATURE <= face.imageData
                  || JPEG_2000_CODESTREAM_SIGNATURE <= face.imageData)
            && face.imageWidth < 0x1_0000 && face.imageHeight < 0x1_0000
  {
    hide Element, Root, Group, FaceRecord, BiometricData, IsSlice;
    var root := Root(dg2).value;
    RootIsSlice(dg2);
    var group := Group(root).value;
    GroupIsSlice(root);
    var data := BiometricData(group, 0).value;
    DataIsSlice(group, 0);
    RecordIsSlice(data);
    var face := FaceRecord(data).value;
    SliceOfSlice(face.imageData, data, group);
    SliceOfSlice(face.imageData, group, root);
    SliceOfSlice(face.imageData, root, dg2);
  }

  lemma GroupIsSlice(root: Bytes)
    requires Group(root).Ok?
    ensures IsSlice(Group(root).value, root)
  {
  }

  lemma TwoBytes(s: Bytes)
    requires |s| == 2
    ensures Number(s) == (s[0] as int) * 256 + s[1] as int
  {
    assert s[..1][..0] == [] && s[..1][0] == s[0];
    assert Number(s[..1]) == s[0];
  }

  lemma RecordIsSlice(data: Bytes)
    requires FaceRecord(data).Ok?
    ensures var face := FaceRecord(data).value;
            && IsSlice(face.imageData, data) && face.imageData != []
            && SignatureFormat(face.imageData) == Some(face.imageFormat)
            && face.imageWidth < 0x1_0000 && face.imageHeight < 0x1_0000
  {
    var face := FaceRecord(data).value;
    var info := FEATURE_POINTS_OFFSET + Uint(data, FEATURE_POINT_COUNT_OFFSET, 2).value * FEATURE_POINT_SIZE;
    TwoBytes(data[info + 2..info + 4]);
    TwoBytes(data[info + 4..info + 6]);
    assert face.imageData == data[info + 12..|data|];
  }
}
