/**
The segmented certificate store of `scripts/import-icao-pkd.ts`: records grouped by country, cut
into segments, and an index from lookup keys to segments.  The order `localeCompare` puts the
countries in is a parameter: any order will do.
*/
module DscSegments {
  import opened Wrappers
  import Decimal
  import Ldif

  const MAX_DSCS_PER_SEGMENT: nat := 1000

  datatype Record = Record(country: Option<string>, issuerKey: string, serialHex: string, skiHex: Option<string>)

  datatype Segment = Segment(key: string, dscs: seq<Record>)

  // The two indexes of a bundle.
  datatype Field = IssuerSerial | Ski

  function UpperChar(c: char): char {
    if 'a' <= c <= 'z' then (c as int - 32) as char else c
  }

  function CountryKey(r: Record): string {
    match r.country
    case None => "UNKNOWN"
    case Some(c) => seq(|c|, i requires 0 <= i < |c| => UpperChar(c[i]))
  }

  /** The key a record is listed under; no subject key identifier, or an empty one, is not listed. */
  function IndexKey(field: Field, r: Record): Option<string> {
    match field
    case IssuerSerial => Some(Ldif.Lower(r.issuerKey + ":" + Ldif.Lower(r.serialHex)))
    case Ski => if r.skiHex == None || r.skiHex == Some("") then None else Some(Ldif.Lower(r.skiHex.value))
  }

  // ---- Grouping ----

  /** The records of one country, in order. */
  function Group(dscs: seq<Record>, country: string): seq<Record> {
    if dscs == [] then []
    else
      var last := dscs[|dscs| - 1];
      Group(dscs[..|dscs| - 1], country) + if CountryKey(last) == country then [last] else []
  }

  ghost predicate HasCountry(dscs: seq<Record>, country: string) {
    exists i | 0 <= i < |dscs| :: CountryKey(dscs[i]) == country
  }

  // The records of each country that has any.
  ghost predicate Grouped(groups: map<string, seq<Record>>, dscs: seq<Record>) {
    forall c :: (c in groups <==> HasCountry(dscs, c)) && (c in groups ==> groups[c] == Group(dscs, c))
  }

  method GroupByCountry(dscs: seq<Record>) returns (groups: map<string, seq<Record>>)
    ensures Grouped(groups, dscs)
  {
    hide Grouped;
    groups := map[];
    NothingGrouped();
    for i := 0 to |dscs|
      invariant Grouped(groups, dscs[..i])
    {
      var country := CountryKey(dscs[i]);
      GroupSnoc(groups, dscs[..i], dscs[i]);
      assert dscs[..i + 1] == dscs[..i] + [dscs[i]];
      if country in groups {
        groups := groups[country := groups[country] + [dscs[i]]];
      } else {
        groups := groups[country := [dscs[i]]];
      }
    }
    assert dscs[..|dscs|] == dscs;
  }

  lemma NothingGrouped()
    ensures Grouped(map[], [])
  {
  }

  lemma GroupSnoc(groups: map<string, seq<Record>>, dscs: seq<Record>, r: Record)
    requires Grouped(groups, dscs)
    ensures var c := CountryKey(r);
            Grouped(groups[c := if c in groups then groups[c] + [r] else [r]], dscs + [r])
  {
    hide CountryKey;
    assert (dscs + [r])[..|dscs|] == dscs;
    forall c ensures HasCountry(dscs + [r], c) <==> HasCountry(dscs, c) || CountryKey(r) == c {
      HasCountrySnoc(dscs, r, c);
    }
    forall c ensures Group(dscs, c) == [] <==> !HasCountry(dscs, c) {
      GroupEmpty(dscs, c);
    }
  }

  lemma {:induction false} GroupEmpty(dscs: seq<Record>, c: string)
    ensures Group(dscs, c) == [] <==> !HasCountry(dscs, c)
  {
    if dscs != [] {
      var n := |dscs| - 1;
      GroupEmpty(dscs[..n], c);
      HasCountrySnoc(dscs[..n], dscs[n], c);
      assert dscs == dscs[..n] + [dscs[n]];
    }
  }

  lemma HasCountrySnoc(dscs: seq<Record>, r: Record, c: string)
    ensures HasCountry(dscs + [r], c) <==> HasCountry(dscs, c) || CountryKey(r) == c
  {
    hide CountryKey;
    var all := dscs + [r];
    assert all[|dscs|] == r;
    if HasCountry(dscs, c) {
      var i :| 0 <= i < |dscs| && CountryKey(dscs[i]) == c;
      assert all[i] == dscs[i];
    }
  }

  function Chunks<T>(items: seq<T>, size: nat): seq<seq<T>>
    requires size > 0
  {
    if |items| == 0 then []
    else if |items| <= size then [items]
    else [items[..size]] + Chunks(items[size..], size)
  }

  method ChunkItems<T>(items: seq<T>, chunkSize: nat) returns (chunks: seq<seq<T>>)
    requires chunkSize > 0
    ensures chunks == Chunks(items, chunkSize)
  {
    chunks := [];
    var chunkStart := 0;
    while chunkStart < |items|
      invariant chunkStart <= |items| ==> chunks + Chunks(items[chunkStart..], chunkSize) == Chunks(items, chunkSize)
      invariant chunkStart > |items| ==> chunks == Chunks(items, chunkSize)
    {
      var end := if chunkStart + chunkSize < |items| then chunkStart + chunkSize else |items|;
      var rest := items[chunkStart..];
      assert items[chunkStart..end] == if |rest| <= chunkSize then rest else rest[..chunkSize];
      assert |rest| > chunkSize ==> rest[chunkSize..] == items[chunkStart + chunkSize..];
      chunks := chunks + [items[chunkStart..end]];
      chunkStart := chunkStart + chunkSize;
    }
  }

  /** The chunks put together are the items; only the last may be short, and none is empty. */
  lemma {:induction false} ChunksShape<T>(items: seq<T>, size: nat)
    requires size > 0
    ensures Concat(Chunks(items, size)) == items
    ensures forall i | 0 <= i < |Chunks(items, size)| :: 0 < |Chunks(items, size)[i]| <= size
    ensures forall i | 0 <= i < |Chunks(items, size)| - 1 :: |Chunks(items, size)[i]| == size
    ensures |Chunks(items, size)| == 0 <==> items == []
    ensures |Chunks(items, size)| == 1 <==> 0 < |items| <= size
  {
    if |items| > size {
      ChunksShape(items[size..], size);
      assert items == items[..size] + items[size..];
    }
  }

  // ---- Segments ----

  function Padded(n: nat): string {
    if n < 10 then "0" + Decimal.Text(n) else Decimal.Text(n)
  }

  function SegmentKey(country: string, index: nat, chunkCount: nat): string {
    if chunkCount == 1 then country else country + ['-'] + Padded(index + 1)
  }

  function CountryChunks(dscs: seq<Record>, country: string): seq<seq<Record>> {
    Chunks(Group(dscs, country), MAX_DSCS_PER_SEGMENT)
  }

  function CountrySegments(country: string, chunks: seq<seq<Record>>): (r: seq<Segment>)
    ensures |r| == |chunks|
    ensures forall i | 0 <= i < |r| :: r[i] == Segment(SegmentKey(country, i, |chunks|), chunks[i])
  {
    seq(|chunks|, i requires 0 <= i < |chunks| => Segment(SegmentKey(country, i, |chunks|), chunks[i]))
  }

  function SegmentsOf(dscs: seq<Record>, countries: seq<string>): seq<Segment> {
    if countries == [] then []
    else
      var n := |countries| - 1;
      SegmentsOf(dscs, countries[..n]) + CountrySegments(countries[n], CountryChunks(dscs, countries[n]))
  }

  // ---- Index ----

  /** The records that a key finds, in order. */
  function Matches(dscs: seq<Record>, field: Field, key: string): seq<Record> {
    if dscs == [] then []
    else
      var last := dscs[|dscs| - 1];
      Matches(dscs[..|dscs| - 1], field, key) + if IndexKey(field, last) == Some(key) then [last] else []
  }

  function Extend(listed: seq<string>, segmentKey: string, matched: bool): seq<string> {
    if matched && segmentKey !in listed then listed + [segmentKey] else listed
  }

  /** The keys of the segments that hold a match, each once, in the order the segments come. */
  function ListedKeys(segments: seq<Segment>, field: Field, key: string): seq<string> {
    if segments == [] then []
    else
      var n := |segments| - 1;
      Extend(ListedKeys(segments[..n], field, key), segments[n].key, Matches(segments[n].dscs, field, key) != [])
  }

  function Listed(index: map<string, seq<string>>, key: string): seq<string> {
    if key in index then index[key] else []
  }

  ghost predicate Lists(index: map<string, seq<string>>, segments: seq<Segment>, field: Field) {
    forall key :: Listed(index, key) == ListedKeys(segments, field, key)
  }

  class SegmentIndex {
    var lists: map<string, seq<string>>

    constructor ()
      ensures lists == map[]
    {
      lists := map[];
    }

    method AddIndexSegment(key: string, segmentKey: string)
      modifies this
      ensures lists == old(lists)[Ldif.Lower(key) := Extend(Listed(old(lists), Ldif.Lower(key)), segmentKey, true)]
    {
      var normalizedKey := Ldif.Lower(key);
      if normalizedKey in lists {
        var existing := lists[normalizedKey];
        if segmentKey !in existing {
          lists := lists[normalizedKey := existing + [segmentKey]];
        } else {
          assert lists == lists[normalizedKey := existing];
        }
      } else {
        lists := lists[normalizedKey := [segmentKey]];
        assert [] + [segmentKey] == [segmentKey];
      }
    }
  }

  lemma NewSegmentKeepsLists(index: map<string, seq<string>>, done: seq<Segment>, segmentKey: string, field: Field)
    requires Lists(index, done, field)
    ensures Lists(index, done + [Segment(segmentKey, [])], field)
  {
    assert (done + [Segment(segmentKey, [])])[..|done|] == done;
  }

  /** Listing one more record of a segment keeps the index in step with the segments. */
  lemma AddKeepsLists(index: map<string, seq<string>>, done: seq<Segment>, key: string, dscs: seq<Record>, r: Record,
                      field: Field)
    requires Lists(index, done + [Segment(key, dscs)], field)
    ensures match IndexKey(field, r)
            case None => Lists(index, done + [Segment(key, dscs + [r])], field)
            case Some(k) =>
              Lists(index[k := Extend(Listed(index, k), key, true)], done + [Segment(key, dscs + [r])], field)
  {
    hide IndexKey, ListedKeys, Matches;
    forall k
      ensures ListedKeys(done + [Segment(key, dscs + [r])], field, k)
           == Extend(ListedKeys(done + [Segment(key, dscs)], field, k), key, IndexKey(field, r) == Some(k))
    {
      ListedWithOneMore(done, key, dscs, r, field, k);
    }
  }

  lemma ListedWithOneMore(done: seq<Segment>, key: string, dscs: seq<Record>, r: Record, field: Field, k: string)
    ensures ListedKeys(done + [Segment(key, dscs + [r])], field, k)
         == Extend(ListedKeys(done + [Segment(key, dscs)], field, k), key, IndexKey(field, r) == Some(k))
  {
    hide IndexKey;
    var before, after := done + [Segment(key, dscs)], done + [Segment(key, dscs + [r])];
    assert before[..|done|] == done && after[..|done|] == done;
    assert (dscs + [r])[..|dscs|] == dscs;
  }

  method IndexSegment(segment: Segment, issuerSerial: SegmentIndex, skiHex: SegmentIndex, ghost done: seq<Segment>)
    requires issuerSerial != skiHex
    requires Lists(issuerSerial.lists, done, IssuerSerial) && Lists(skiHex.lists, done, Ski)
    modifies issuerSerial, skiHex
    ensures Lists(issuerSerial.lists, done + [segment], IssuerSerial) && Lists(skiHex.lists, done + [segment], Ski)
  {
    hide Lists;
    var key, dscs := segment.key, segment.dscs;
    NewSegmentKeepsLists(issuerSerial.lists, done, key, IssuerSerial);
    NewSegmentKeepsLists(skiHex.lists, done, key, Ski);
    for i := 0 to |dscs|
      invariant Lists(issuerSerial.lists, done + [Segment(key, dscs[..i])], IssuerSerial)
      invariant Lists(skiHex.lists, done + [Segment(key, dscs[..i])], Ski)
    {
      var record := dscs[i];
      AddKeepsLists(issuerSerial.lists, done, key, dscs[..i], record, IssuerSerial);
      AddKeepsLists(skiHex.lists, done, key, dscs[..i], record, Ski);
      assert dscs[..i + 1] == dscs[..i] + [record];
      issuerSerial.AddIndexSegment(record.issuerKey + ":" + Ldif.Lower(record.serialHex), key);
      if record.skiHex != None && record.skiHex != Some("") {
        skiHex.AddIndexSegment(record.skiHex.value, key);
      }
    }
    assert dscs[..|dscs|] == dscs;
  }

  /** `countries` are the countries that have records, each once. */
  ghost predicate IsOrder(countries: seq<string>, dscs: seq<Record>) {
    && (forall c :: c in countries <==> HasCountry(dscs, c))
    && forall i, j | 0 <= i < j < |countries| :: countries[i] != countries[j]
  }

  method BuildSegments(dscs: seq<Record>, countries: seq<string>)
    returns (segments: seq<Segment>, issuerIndex: map<string, seq<string>>, skiIndex: map<string, seq<string>>)
    requires IsOrder(countries, dscs)
    ensures segments == SegmentsOf(dscs, countries)
    ensures Lists(issuerIndex, segments, IssuerSerial) && Lists(skiIndex, segments, Ski)
  {
    hide Lists, ListedKeys, Chunks, Group;
    var groups := GroupByCountry(dscs);
    var issuerSerial := new SegmentIndex();
    var skiHex := new SegmentIndex();
    segments := [];
    NothingListed();
    for n := 0 to |countries|
      invariant segments == SegmentsOf(dscs, countries[..n])
      invariant Lists(issuerSerial.lists, segments, IssuerSerial) && Lists(skiHex.lists, segments, Ski)
    {
      var country := countries[n];
      assert countries[..n + 1][..n] == countries[..n];
      assert country in countries;
      var chunks := ChunkItems(groups[country], MAX_DSCS_PER_SEGMENT);
      ghost var all := CountrySegments(country, chunks);
      ghost var before := segments;
      for i := 0 to |chunks|
        invariant segments == before + all[..i]
        invariant Lists(issuerSerial.lists, segments, IssuerSerial) && Lists(skiHex.lists, segments, Ski)
      {
        var segment := Segment(SegmentKey(country, i, |chunks|), chunks[i]);
        assert all[..i + 1] == all[..i] + [segment];
        IndexSegment(segment, issuerSerial, skiHex, segments);
        segments := segments + [segment];
      }
      assert all[..|chunks|] == all;
    }
    assert countries[..|countries|] == countries;
    issuerIndex, skiIndex := issuerSerial.lists, skiHex.lists;
  }

  lemma NothingListed()
    ensures Lists(map[], [], IssuerSerial) && Lists(map[], [], Ski)
  {
  }
}
