/**
What the DG2 reader makes of every file in the BER encoding (ITU-T X.690, sections 8.1.2 and 8.1.3) and
of every face record, stated by their bytes.
*/
module Dg2Reading {
  import opened Wrappers
  import opened BigEndian
  import opened Dg2Parser
  import opened Dg2RoundTrip
  import Dg2Writer

  // ---- One element ----

  /** One byte, or a first byte ending in five one bits and bytes that go on while their high bit is set. */
  ghost predicate IsTag(t: Bytes) {
    && t != []
    && if t[0] % 32 != 31 then |t| == 1
       else |t| >= 2 && t[|t| - 1] < 128 && forall i | 1 <= i < |t| - 1 :: t[i] >= 128
  }

  /** One byte below 128, or a count of one to four and as many bytes, not necessarily the shortest. */
  ghost predicate IsLength(l: Bytes, n: nat) {
    || (|l| == 1 && l[0] < 128 && n == l[0])
    || (2 <= |l| <= 5 && l[0] == 128 + |l| - 1 && n == Number(l[1..]))
  }

  ghost predicate IsElement(e: Bytes, tag: nat, value: Bytes) {
    exists t, l :: IsTag(t) && Number(t) == tag && IsLength(l, |value|) && e == t + l + value
  }

  lemma OneByte(b: byte)
    ensures Number([b]) == b
  {
    assert [b][..0] == [];
  }

  lemma {:induction false} TagTailReads(t: Bytes, rest: Bytes, i: nat)
    requires 1 <= i < |t| && t[|t| - 1] < 128 && forall k | 1 <= k < |t| - 1 :: t[k] >= 128
    ensures TagTail(t + rest, i, Number(t[..i])) == Ok((Number(t), |t|))
    decreases |t| - i
  {
    var bytes := t + rest;
    assert bytes[i] == t[i] && t[..i + 1][..i] == t[..i];
    assert Number(t[..i + 1]) == Number(t[..i]) * 256 + t[i];
    if i + 1 < |t| {
      TagTailReads(t, rest, i + 1);
    } else {
      assert t[..i + 1] == t;
    }
  }

  /** A tag of any length is read as the number its bytes make. */
  lemma TagReads(t: Bytes, rest: Bytes)
    requires IsTag(t)
    ensures Tag(t + rest, 0) == Ok((Number(t), |t|))
  {
    OneByte(t[0]);
    assert t[..1] == [t[0]];
    if t[0] % 32 == 31 {
      TagTailReads(t, rest, 1);
    } else {
      assert t == [t[0]];
    }
  }

  lemma LengthReads(before: Bytes, l: Bytes, n: nat, rest: Bytes)
    requires IsLength(l, n)
    ensures Length(before + l + rest, |before|) == Ok((n, |before| + |l|))
  {
    var bytes, at := before + l + rest, |before| + 1;
    assert bytes[|before|] == l[0];
    assert bytes[at..at + |l| - 1] == l[1..];
  }

  /** A count of none, or of more than four bytes, is refused. */
  lemma LengthRefused(before: Bytes, first: byte, rest: Bytes)
    requires first == 128 || first > 132
    ensures Length(before + [first] + rest, |before|) == Err(TlvLengthInvalid)
  {
    assert (before + [first] + rest)[|before|] == first;
  }

  /** Every element is read, whatever follows it. */
  lemma ElementReads(e: Bytes, tag: nat, value: Bytes, rest: Bytes)
    requires IsElement(e, tag, value)
    ensures Element(e + rest, 0) == Ok(Tlv(tag, value, |e|))
  {
    hide Tag, Length, Number;
    var t, l :| IsTag(t) && Number(t) == tag && IsLength(l, |value|) && e == t + l + value;
    assert e + rest == t + (l + value + rest) == t + l + (value + rest);
    TagReads(t, l + value + rest);
    LengthReads(t, l, |value|, value + rest);
    assert (e + rest)[|t| + |l|..|e|] == value;
  }

  lemma ElementReadsAt(before: Bytes, e: Bytes, tag: nat, value: Bytes, rest: Bytes)
    requires IsElement(e, tag, value)
    ensures Element(before + (e + rest), |before|) == Ok(Tlv(tag, value, |before| + |e|))
  {
    hide Element, IsElement;
    ElementReads(e, tag, value, rest);
    ElementShift(before, e + rest);
  }

  // ---- The face record ----

  /** The two-byte field `n` in the middle of a record. */
  lemma FieldReads(before: Bytes, n: nat, after: Bytes)
    requires n < 0x1_0000
    ensures Uint(before + Fixed(n, 2) + after, |before|, 2) == Ok(n)
  {
    hide Number, Fixed;
    var bytes := before + Fixed(n, 2) + after;
    assert bytes[|before|..|before| + 2] == Fixed(n, 2);
    assert Pow256(1) == 256 && Pow256(2) == 0x1_0000;
    NumberOfFixed(n, 2);
  }

  /** The signatures, byte by byte. */
  lemma Signatures(image: Bytes)
    ensures SignatureFormat(image) == Some(Jpeg) <==> [0xff, 0xd8, 0xff] <= image
    ensures SignatureFormat(image) == Some(Jpeg2000) <==>
              || [0xff, 0x4f, 0xff, 0x51] <= image
              || [0x00, 0x00, 0x00, 0x0c, 0x6a, 0x50, 0x20, 0x20, 0x0d, 0x0a, 0x87, 0x0a] <= image
  {
    if [0xff, 0xd8, 0xff] <= image {
      assert image[0] == 0xff && image[1] == 0xd8;
    }
  }

  /** And those by which the writer's side knows a format. */
  lemma Detections(image: Bytes)
    ensures Dg2Writer.DetectImageFormat(image) == Some(Jpeg) <==> [0xff, 0xd8, 0xff] <= image
    ensures Dg2Writer.DetectImageFormat(image) == Some(Jpeg2000) <==>
              || [0xff, 0x4f, 0xff, 0x51] <= image
              || [0x00, 0x00, 0x00, 0x0c, 0x6a, 0x50, 0x20, 0x20] <= image
  {
    PrefixByIndex([0xff, 0xd8, 0xff], image);
    PrefixByIndex([0xff, 0x4f, 0xff, 0x51], image);
    PrefixByIndex([0x00, 0x00, 0x00, 0x0c, 0x6a, 0x50, 0x20, 0x20], image);
  }

  /**
  A face record by its fields: the header, the number of feature points, the points of eight bytes each,
  width and height, and the image, with other fields `a` to `d` of fixed sizes in between.
  */
  datatype Fields = Fields(
    a: Bytes, points: nat, b: Bytes, blocks: Bytes, c: Bytes, width: nat, height: nat, d: Bytes, image: Bytes)

  ghost predicate WellSized(f: Fields) {
    && f.points < 0x1_0000 && f.width < 0x1_0000 && f.height < 0x1_0000
    && |f.a| == 14 && |f.b| == 14 && |f.blocks| == 8 * f.points && |f.c| == 2 && |f.d| == 6
  }

  /** Up to the feature points. */
  function Head(f: Fields): Bytes {
    [0x46, 0x41, 0x43, 0x00] + f.a + Fixed(f.points, 2) + f.b
  }

  function Tail(f: Fields): Bytes {
    f.c + Fixed(f.width, 2) + Fixed(f.height, 2) + f.d + f.image
  }

  function Record(f: Fields): Bytes {
    Head(f) + f.blocks + Tail(f)
  }

  lemma HeadReads(f: Fields, rest: Bytes)
    requires WellSized(f)
    ensures |Head(f)| == 34 && [0x46, 0x41, 0x43, 0x00] <= Head(f) + rest
    ensures Uint(Head(f) + rest, 18, 2) == Ok(f.points)
  {
    hide Fixed, Uint;
    var before := [0x46, 0x41, 0x43, 0x00] + f.a;
    FieldReads(before, f.points, f.b + rest);
    assert Head(f) + rest == before + Fixed(f.points, 2) + (f.b + rest);
  }

  lemma TailReads(before: Bytes, f: Fields)
    requires WellSized(f)
    ensures Uint(before + Tail(f), |before| + 2, 2) == Ok(f.width)
    ensures Uint(before + Tail(f), |before| + 4, 2) == Ok(f.height)
    ensures |Tail(f)| == 12 + |f.image| && (before + Tail(f))[|before| + 12..] == f.image
  {
    hide Fixed, Uint;
    var w, h := Fixed(f.width, 2), Fixed(f.height, 2);
    FieldReads(before + f.c, f.width, h + f.d + f.image);
    assert before + Tail(f) == (before + f.c) + w + (h + f.d + f.image);
    FieldReads(before + f.c + w, f.height, f.d + f.image);
    assert before + Tail(f) == (before + f.c + w) + h + (f.d + f.image);
  }

  /** Every record reads as its image, its width and its height. */
  lemma RecordReads(f: Fields)
    requires WellSized(f)
    ensures FaceRecord(Record(f))
         == if f.image == [] then Err(ImageMissing)
            else match SignatureFormat(f.image)
                 case None => Err(ImageFormatUnsupported)
                 case Some(format) => Ok(FaceImage(f.image, format, f.height, f.width))
  {
    hide Fixed, Uint, SignatureFormat, Head, Tail;
    HeadReads(f, f.blocks + Tail(f));
    assert Record(f) == Head(f) + (f.blocks + Tail(f));
    TailReads(Head(f) + f.blocks, f);
    assert |Head(f) + f.blocks| == FEATURE_POINTS_OFFSET + f.points * FEATURE_POINT_SIZE;
  }

  // ---- The whole file ----

  ghost predicate IsDataTag(tag: nat) {
    tag == 0x7f2e || tag == 0x5f2e
  }

  /** Elements of other tags than the data's. */
  ghost predicate AreSiblings(kids: seq<Bytes>) {
    forall kid <- kids :: exists tag, value :: IsElement(kid, tag, value) && !IsDataTag(tag)
  }

  /** They are skipped. */
  lemma {:induction false} SiblingsSkipped(before: Bytes, kids: seq<Bytes>, rest: Bytes)
    requires AreSiblings(kids)
    ensures BiometricData(before + (Concat(kids) + rest), |before|)
         == BiometricData(before + (Concat(kids) + rest), |before| + |Concat(kids)|)
    decreases |kids|
  {
    hide Element, IsElement;
    if kids != [] {
      var kid, later := kids[0], kids[1..];
      assert kid in kids && forall k <- later :: k in kids;
      var tag, value :| IsElement(kid, tag, value) && !IsDataTag(tag);
      var group := before + (Concat(kids) + rest);
      assert group == before + (kid + (Concat(later) + rest)) == (before + kid) + (Concat(later) + rest);
      ElementReadsAt(before, kid, tag, value, Concat(later) + rest);
      NotEmpty(kid, tag, value);
      SiblingsSkipped(before + kid, later, rest);
    }
  }

  lemma NotEmpty(e: Bytes, tag: nat, value: Bytes)
    requires IsElement(e, tag, value)
    ensures e != []
  {
  }

  /** The first data element of a group, behind any others. */
  lemma DataReads(kids: seq<Bytes>, data: Bytes, tag: nat, record: Bytes, rest: Bytes)
    requires AreSiblings(kids) && IsElement(data, tag, record) && IsDataTag(tag)
    ensures BiometricData(Concat(kids) + (data + rest), 0) == Ok(record)
  {
    hide Element, IsElement;
    var group := Concat(kids) + (data + rest);
    assert [] + group == group;
    SiblingsSkipped([], kids, data + rest);
    ElementReadsAt(Concat(kids), data, tag, record, rest);
    NotEmpty(data, tag, record);
  }

  lemma NoDataReads(kids: seq<Bytes>)
    requires AreSiblings(kids)
    ensures BiometricData(Concat(kids), 0) == Err(BiometricDataMissing)
  {
    hide Element, IsElement;
    var group := Concat(kids) + [];
    assert group == Concat(kids) && [] + group == group;
    SiblingsSkipped([], kids, []);
  }

  /** The root element, in the file's outer element or not, with anything behind either. */
  ghost predicate IsFile(file: Bytes, tag: nat, root: Bytes) {
    exists e, rest :: IsElement(e, tag, root) &&
      (|| (tag != 0x75 && file == e + rest)
       || exists outer, behind :: IsElement(outer, 0x75, e + rest) && file == outer + behind)
  }

  lemma FileReads(file: Bytes, tag: nat, root: Bytes)
    requires IsFile(file, tag, root)
    ensures Root(file) == if tag == 0x7f61 then Ok(root) else Err(RootTagInvalid)
  {
    hide Element, IsElement;
    var e, rest :| IsElement(e, tag, root) &&
      (|| (tag != 0x75 && file == e + rest)
       || exists outer, behind :: IsElement(outer, 0x75, e + rest) && file == outer + behind);
    ElementReads(e, tag, root, rest);
    if tag == 0x75 || file != e + rest {
      var outer, behind :| IsElement(outer, 0x75, e + rest) && file == outer + behind;
      ElementReads(outer, 0x75, e + rest, behind);
    }
  }

  lemma RootReads(instances: Bytes, first: nat, count: Bytes, group: Bytes, second: nat, value: Bytes, rest: Bytes)
    requires IsElement(instances, first, count) && IsElement(group, second, value)
    ensures Group(instances + (group + rest))
         == if first != 0x02 then Err(InstanceCountMissing)
            else if second != 0x7f60 then Err(BiometricGroupMissing)
            else Ok(value)
  {
    hide Element, IsElement;
    ElementReads(instances, first, count, group + rest);
    ElementReadsAt(instances, group, second, value, rest);
  }

  /**
  Every file, however its tags and lengths are encoded and whatever other elements and trailing bytes it
  has: the record of its first data element is read.
  */
  lemma FileImageReads(
    file: Bytes, instances: Bytes, count: Bytes, element: Bytes, behind: Bytes, kids: seq<Bytes>, data: Bytes,
    tag: nat, rest: Bytes, f: Fields)
    requires IsFile(file, 0x7f61, instances + (element + behind)) && IsElement(instances, 0x02, count)
    requires IsElement(element, 0x7f60, Concat(kids) + (data + rest)) && AreSiblings(kids)
    requires IsElement(data, tag, Record(f)) && (tag == 0x7f2e || tag == 0x5f2e) && WellSized(f)
    ensures [0xff, 0xd8, 0xff] <= f.image ==> Extract(file) == Ok(FaceImage(f.image, Jpeg, f.height, f.width))
    ensures || [0xff, 0x4f, 0xff, 0x51] <= f.image
            || [0x00, 0x00, 0x00, 0x0c, 0x6a, 0x50, 0x20, 0x20, 0x0d, 0x0a, 0x87, 0x0a] <= f.image ==>
              Extract(file) == Ok(FaceImage(f.image, Jpeg2000, f.height, f.width))
  {
    hide IsElement, IsFile, Root, Group, BiometricData, FaceRecord, SignatureFormat, Record, AreSiblings;
    hide WellSized;
    FileReads(file, 0x7f61, instances + (element + behind));
    RootReads(instances, 0x02, count, element, 0x7f60, Concat(kids) + (data + rest), behind);
    DataReads(kids, data, tag, Record(f), rest);
    RecordReads(f);
    Signatures(f.image);
  }

  /** The errors of files that lack one of the parts. */
  lemma FileErrors(
    file: Bytes, tag: nat, instances: Bytes, first: nat, count: Bytes, element: Bytes, second: nat,
    kids: seq<Bytes>, behind: Bytes)
    requires IsFile(file, tag, instances + (element + behind))
    requires IsElement(instances, first, count) && IsElement(element, second, Concat(kids)) && AreSiblings(kids)
    ensures Extract(file) == Err(if tag != 0x7f61 then RootTagInvalid
                                 else if first != 0x02 then InstanceCountMissing
                                 else if second != 0x7f60 then BiometricGroupMissing
                                 else BiometricDataMissing)
  {
    hide IsElement, IsFile, Root, Group, BiometricData, AreSiblings;
    FileReads(file, tag, instances + (element + behind));
    RootReads(instances, first, count, element, second, Concat(kids), behind);
    NoDataReads(kids);
  }
}
