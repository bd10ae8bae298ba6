/**
What the segments and the index of `DscSegments` are worth to a lookup: the segments are written to
one file each, named by their keys, and a lookup reads only the files the index lists.
*/
module DscLookup {
  import opened Wrappers
  import Decimal
  import opened DscSegments

  // ---- Nothing lost, nothing oversized ----

  function AllRecords(segments: seq<Segment>): seq<Record> {
    if segments == [] then []
    else AllRecords(segments[..|segments| - 1]) + segments[|segments| - 1].dscs
  }

  lemma AllRecordsEmpty()
    ensures AllRecords([]) == []
  {
  }

  lemma AllRecordsSnoc(segments: seq<Segment>, s: Segment)
    ensures AllRecords(segments + [s]) == AllRecords(segments) + s.dscs
  {
    assert (segments + [s])[..|segments|] == segments;
  }

  lemma {:induction false} AllRecordsSplit(left: seq<Segment>, right: seq<Segment>)
    ensures AllRecords(left + right) == AllRecords(left) + AllRecords(right)
  {
    hide AllRecords;
    if right == [] {
      assert left + right == left;
      AllRecordsEmpty();
    } else {
      var n := |right| - 1;
      var init, last := right[..n], right[n];
      AllRecordsSplit(left, init);
      assert right == init + [last] && left + right == (left + init) + [last];
      AllRecordsSnoc(left + init, last);
      AllRecordsSnoc(init, last);
    }
  }

  lemma {:induction false} CountryRecords(country: string, chunks: seq<seq<Record>>, n: nat)
    requires n <= |chunks|
    ensures AllRecords(CountrySegments(country, chunks)[..n]) == Concat(chunks[..n])
  {
    hide AllRecords, SegmentKey;
    AllRecordsEmpty();
    if n > 0 {
      var segments := CountrySegments(country, chunks);
      CountryRecords(country, chunks, n - 1);
      assert segments[..n] == segments[..n - 1] + [segments[n - 1]];
      AllRecordsSnoc(segments[..n - 1], segments[n - 1]);
      assert chunks[..n] == chunks[..n - 1] + [chunks[n - 1]];
      ConcatAppend(chunks[..n - 1], chunks[n - 1]);
    }
  }

  function Groups(dscs: seq<Record>, countries: seq<string>): seq<Record> {
    if countries == [] then []
    else Groups(dscs, countries[..|countries| - 1]) + Group(dscs, countries[|countries| - 1])
  }

  lemma {:induction false} SegmentsHoldGroups(dscs: seq<Record>, countries: seq<string>)
    ensures AllRecords(SegmentsOf(dscs, countries)) == Groups(dscs, countries)
  {
    hide Group, Chunks;
    if countries != [] {
      var n := |countries| - 1;
      var chunks := CountryChunks(dscs, countries[n]);
      var own := CountrySegments(countries[n], chunks);
      SegmentsHoldGroups(dscs, countries[..n]);
      AllRecordsSplit(SegmentsOf(dscs, countries[..n]), own);
      CountryRecords(countries[n], chunks, |chunks|);
      assert own[..|chunks|] == own && chunks[..|chunks|] == chunks;
      ChunksShape(Group(dscs, countries[n]), MAX_DSCS_PER_SEGMENT);
    }
  }

  lemma {:induction false} GroupsGainOne(dscs: seq<Record>, r: Record, countries: seq<string>)
    requires Distinct(countries)
    ensures multiset(Groups(dscs + [r], countries))
         == multiset(Groups(dscs, countries)) + if CountryKey(r) in countries then multiset{r} else multiset{}
  {
    hide CountryKey, Group;
    if countries != [] {
      var n := |countries| - 1;
      var init, c := countries[..n], countries[n];
      GroupsGainOne(dscs, r, init);
      GroupGainsOne(dscs, r, c);
      assert countries == init + [c] && c !in init;
    }
  }

  lemma GroupGainsOne(dscs: seq<Record>, r: Record, c: string)
    ensures Group(dscs + [r], c) == Group(dscs, c) + if CountryKey(r) == c then [r] else []
  {
    hide CountryKey;
    assert (dscs + [r])[..|dscs|] == dscs;
  }

  lemma {:induction false} GroupsOfNone(countries: seq<string>)
    ensures Groups([], countries) == []
  {
    if countries != [] {
      GroupsOfNone(countries[..|countries| - 1]);
    }
  }

  lemma {:induction false} GroupsPermute(dscs: seq<Record>, countries: seq<string>)
    requires Distinct(countries) && forall i | 0 <= i < |dscs| :: CountryKey(dscs[i]) in countries
    ensures multiset(Groups(dscs, countries)) == multiset(dscs)
  {
    hide CountryKey, Groups;
    if dscs == [] {
      GroupsOfNone(countries);
    } else {
      var n := |dscs| - 1;
      GroupsPermute(dscs[..n], countries);
      GroupsGainOne(dscs[..n], dscs[n], countries);
      assert dscs == dscs[..n] + [dscs[n]];
    }
  }

  /** Every record goes to exactly one place in exactly one segment. */
  lemma SegmentsPermuteRecords(dscs: seq<Record>, countries: seq<string>)
    requires IsOrder(countries, dscs)
    ensures multiset(AllRecords(SegmentsOf(dscs, countries))) == multiset(dscs)
  {
    SegmentsHoldGroups(dscs, countries);
    forall i | 0 <= i < |dscs| ensures CountryKey(dscs[i]) in countries {
      assert HasCountry(dscs, CountryKey(dscs[i]));
    }
    GroupsPermute(dscs, countries);
  }

  /** Segment `s` is chunk `i` of a country's records. */
  ghost predicate IsChunkOf(s: Segment, dscs: seq<Record>, country: string, i: nat) {
    var chunks := CountryChunks(dscs, country);
    i < |chunks| && s == Segment(SegmentKey(country, i, |chunks|), chunks[i])
  }

  lemma {:induction false} SegmentOrigin(dscs: seq<Record>, countries: seq<string>, k: nat) returns (c: string, i: nat)
    requires k < |SegmentsOf(dscs, countries)|
    ensures c in countries && IsChunkOf(SegmentsOf(dscs, countries)[k], dscs, c, i)
  {
    hide CountryChunks;
    var n := |countries| - 1;
    var before := SegmentsOf(dscs, countries[..n]);
    if k < |before| {
      c, i := SegmentOrigin(dscs, countries[..n], k);
      assert c in countries[..n] ==> c in countries;
    } else {
      c, i := countries[n], k - |before|;
    }
  }

  lemma {:induction false} SegmentPosition(
    dscs: seq<Record>, countries: seq<string>, c: string, i: nat) returns (k: nat)
    requires c in countries && i < |CountryChunks(dscs, c)|
    ensures k < |SegmentsOf(dscs, countries)| && IsChunkOf(SegmentsOf(dscs, countries)[k], dscs, c, i)
  {
    hide CountryChunks;
    var n := |countries| - 1;
    var before := SegmentsOf(dscs, countries[..n]);
    if c == countries[n] {
      k := |before| + i;
    } else {
      assert countries == countries[..n] + [countries[n]];
      k := SegmentPosition(dscs, countries[..n], c, i);
    }
  }

  /** No segment is empty, none has more than 1000 records, and each is of one country. */
  lemma SegmentsAreSmall(dscs: seq<Record>, countries: seq<string>)
    ensures forall s <- SegmentsOf(dscs, countries) :: 0 < |s.dscs| <= 1000
    ensures forall s <- SegmentsOf(dscs, countries) ::
              exists c :: c in countries && forall r <- s.dscs :: CountryKey(r) == c
  {
    hide CountryKey, SegmentsOf;
    forall s | s in SegmentsOf(dscs, countries)
      ensures 0 < |s.dscs| <= 1000 && exists c :: c in countries && forall r <- s.dscs :: CountryKey(r) == c
    {
      var k :| 0 <= k < |SegmentsOf(dscs, countries)| && SegmentsOf(dscs, countries)[k] == s;
      var c, i := SegmentOrigin(dscs, countries, k);
      ChunkOfCountry(dscs, c, i);
    }
  }

  lemma ChunkOfCountry(dscs: seq<Record>, c: string, i: nat)
    requires i < |CountryChunks(dscs, c)|
    ensures 0 < |CountryChunks(dscs, c)[i]| <= 1000
    ensures forall r <- CountryChunks(dscs, c)[i] :: CountryKey(r) == c
  {
    hide Chunks, CountryKey;
    ChunksShape(Group(dscs, c), MAX_DSCS_PER_SEGMENT);
    ChunkInWhole(CountryChunks(dscs, c), i);
    GroupHasCountry(dscs, c);
  }

  lemma {:induction false} ChunkInWhole<T>(chunks: seq<seq<T>>, i: nat)
    requires i < |chunks|
    ensures forall x <- chunks[i] :: x in Concat(chunks)
  {
    if i > 0 {
      ChunkInWhole(chunks[1..], i - 1);
    }
  }

  lemma {:induction false} GroupHasCountry(dscs: seq<Record>, c: string)
    ensures forall r <- Group(dscs, c) :: CountryKey(r) == c
  {
    hide CountryKey;
    if dscs != [] {
      GroupHasCountry(dscs[..|dscs| - 1], c);
    }
  }

  // ---- Segment keys ----

  /**
  Country `b` has one segment, whose key is `b`, and a numbered segment of country `a`, which has
  several, has the same key.
  */
  ghost predicate Clash(dscs: seq<Record>, a: string, b: string) {
    && |Group(dscs, a)| > MAX_DSCS_PER_SEGMENT && |Group(dscs, b)| <= MAX_DSCS_PER_SEGMENT
    && exists i: nat | i < |CountryChunks(dscs, a)| :: b == SegmentKey(a, i, |CountryChunks(dscs, a)|)
  }

  ghost predicate Clashes(dscs: seq<Record>, countries: seq<string>) {
    exists a, b | a in countries && b in countries :: Clash(dscs, a, b)
  }

  lemma PaddedInjective(m: nat, n: nat)
    requires Padded(m) == Padded(n)
    ensures m == n
  {
    PaddedValue(m);
    PaddedValue(n);
  }

  lemma PaddedValue(n: nat)
    ensures Decimal.Value(Padded(n)) == n && '-' !in Padded(n)
  {
    Decimal.ValueOfText(n);
    if n < 10 {
      var d := Decimal.Text(n);
      assert Padded(n) == ['0'] + d && |d| == 1;
      assert ("0" + d)[..1] == "0" && "0"[..0] == "" && d[..0] == "";
    }
  }

  lemma NumberedKeys(a: string, i: nat, b: string, j: nat)
    requires a + ['-'] + Padded(i + 1) == b + ['-'] + Padded(j + 1)
    ensures a == b && i == j
  {
    hide Padded, Decimal.Value;
    var x, y := Padded(i + 1), Padded(j + 1);
    PaddedValue(i + 1);
    PaddedValue(j + 1);
    assert a + (['-'] + x) == a + ['-'] + x;
    assert b + (['-'] + y) == b + ['-'] + y;
    Decimal.TailsAgree(a, x, b, y, '-');
    PaddedInjective(i + 1, j + 1);
  }

  lemma KeysOfTwoChunks(a: string, i: nat, m: nat, b: string, j: nat, n: nat)
    requires i < m && j < n
    requires SegmentKey(a, i, m) == SegmentKey(b, j, n)
    ensures (m == 1 <==> n == 1) ==> a == b && i == j
  {
    hide Padded;
    if m != 1 && n != 1 {
      NumberedKeys(a, i, b, j);
    }
  }

  /** No two segments have the same key. */
  ghost predicate KeysDistinct(segments: seq<Segment>) {
    forall i, j | 0 <= i < j < |segments| :: segments[i].key != segments[j].key
  }

  /** Segments of the same key are one country's same chunk, unless their countries clash. */
  lemma SameKey(dscs: seq<Record>, s: Segment, a: string, i: nat, t: Segment, b: string, j: nat)
    requires IsChunkOf(s, dscs, a, i) && IsChunkOf(t, dscs, b, j) && s.key == t.key
    ensures (a == b && i == j) || Clash(dscs, a, b) || Clash(dscs, b, a)
  {
    hide SegmentKey;
    var m, n := |CountryChunks(dscs, a)|, |CountryChunks(dscs, b)|;
    KeysOfTwoChunks(a, i, m, b, j, n);
    CountChunks(dscs, a);
    CountChunks(dscs, b);
    SingleKey(a, i);
    SingleKey(b, j);
  }

  lemma SingleKey(c: string, i: nat)
    ensures SegmentKey(c, i, 1) == c
  {
  }

  lemma CountChunks(dscs: seq<Record>, c: string)
    ensures |CountryChunks(dscs, c)| == 1 <==> 0 < |Group(dscs, c)| <= MAX_DSCS_PER_SEGMENT
    ensures |CountryChunks(dscs, c)| == 0 <==> Group(dscs, c) == []
  {
    ChunksShape(Group(dscs, c), MAX_DSCS_PER_SEGMENT);
  }

  lemma KeysDiffer(dscs: seq<Record>, s: Segment, a: string, i: nat, t: Segment, b: string, j: nat)
    requires IsChunkOf(s, dscs, a, i) && IsChunkOf(t, dscs, b, j)
    requires !Clash(dscs, a, b) && !Clash(dscs, b, a) && (a != b || i != j)
    ensures s.key != t.key
  {
    hide Clash, IsChunkOf;
    if s.key == t.key {
      SameKey(dscs, s, a, i, t, b, j);
    }
  }

  lemma {:induction false} DistinctWithoutClash(dscs: seq<Record>, countries: seq<string>)
    requires Distinct(countries) && !Clashes(dscs, countries)
    ensures KeysDistinct(SegmentsOf(dscs, countries))
  {
    hide CountryChunks, Clash, SegmentKey, Group;
    if countries != [] {
      var n := |countries| - 1;
      var init, c := countries[..n], countries[n];
      assert countries == init + [c] && c !in init;
      DistinctWithoutClash(dscs, init);
      var before := SegmentsOf(dscs, init);
      var segments := SegmentsOf(dscs, countries);
      forall i, j | 0 <= i < j < |segments| ensures segments[i].key != segments[j].key {
        if |before| <= j {
          var a, ci := c, i - |before|;
          if i < |before| {
            a, ci := SegmentOrigin(dscs, init, i);
          }
          KeysDiffer(dscs, segments[i], a, ci, segments[j], c, j - |before|);
        }
      }
    }
  }

  /** Two different segments share a key when two countries clash. */
  lemma ClashShares(dscs: seq<Record>, countries: seq<string>) returns (i: nat, j: nat)
    requires Clashes(dscs, countries) && IsOrder(countries, dscs)
    ensures i < j < |SegmentsOf(dscs, countries)|
    ensures SegmentsOf(dscs, countries)[i].key == SegmentsOf(dscs, countries)[j].key
  {
    hide SegmentKey, SegmentsOf, Group, HasCountry;
    var a, b :| a in countries && b in countries && Clash(dscs, a, b);
    var ci: nat :| ci < |CountryChunks(dscs, a)| && b == SegmentKey(a, ci, |CountryChunks(dscs, a)|);
    CountChunks(dscs, b);
    GroupEmpty(dscs, b);
    i := SegmentPosition(dscs, countries, a, ci);
    j := SegmentPosition(dscs, countries, b, 0);
    SingleKey(b, 0);
    GroupHasCountry(dscs, a);
    ChunkOfCountry(dscs, a, ci);
    ChunkOfCountry(dscs, b, 0);
    var segments := SegmentsOf(dscs, countries);
    assert segments[i].dscs[0] in segments[i].dscs && segments[j].dscs[0] in segments[j].dscs;
    if j < i {
      i, j := j, i;
    }
  }

  /** Segment keys are all different exactly when no two countries clash. */
  lemma KeysDistinctIff(dscs: seq<Record>, countries: seq<string>)
    requires IsOrder(countries, dscs)
    ensures KeysDistinct(SegmentsOf(dscs, countries)) <==> !Clashes(dscs, countries)
  {
    if Clashes(dscs, countries) {
      var i, j := ClashShares(dscs, countries);
    } else {
      DistinctWithoutClash(dscs, countries);
    }
  }

  /** Country keys without a hyphen never clash. */
  lemma NoHyphenNoClash(dscs: seq<Record>, countries: seq<string>)
    requires forall c <- countries :: '-' !in c
    ensures !Clashes(dscs, countries)
  {
    hide Group, Padded;
    forall a, b | a in countries && b in countries ensures !Clash(dscs, a, b) {
      CountChunks(dscs, a);
      forall i: nat | i < |CountryChunks(dscs, a)| && |CountryChunks(dscs, a)| != 1
        ensures b != SegmentKey(a, i, |CountryChunks(dscs, a)|)
      {
        assert (a + ['-'] + Padded(i + 1))[|a|] == '-';
      }
    }
  }

  // ---- Looking up ----

  /** What the file of a segment key holds once all segments are written: the last one's records. */
  function Stored(segments: seq<Segment>, key: string): seq<Record> {
    if segments == [] then []
    else
      var last := segments[|segments| - 1];
      if last.key == key then last.dscs else Stored(segments[..|segments| - 1], key)
  }

  /** The records a lookup finds in the files it was told to read, one after the other. */
  function Lookup(segments: seq<Segment>, listed: seq<string>, field: Field, key: string): seq<Record> {
    if listed == [] then []
    else
      var n := |listed| - 1;
      Lookup(segments, listed[..n], field, key) + Matches(Stored(segments, listed[n]), field, key)
  }

  /** The listed keys are those of the segments with a match, and no key is listed twice. */
  lemma {:induction false} ListedExactly(segments: seq<Segment>, field: Field, key: string)
    ensures Distinct(ListedKeys(segments, field, key))
    ensures forall k :: k in ListedKeys(segments, field, key)
                   <==> exists i :: 0 <= i < |segments| && segments[i].key == k
                                    && Matches(segments[i].dscs, field, key) != []
  {
    hide Matches;
    if segments != [] {
      var n := |segments| - 1;
      ListedExactly(segments[..n], field, key);
      assert forall i | 0 <= i < n :: segments[..n][i] == segments[i];
    }
  }

  /** A new file changes a lookup that does not read it in nothing. */
  lemma {:induction false} LookupUnchanged(
    init: seq<Segment>, s: Segment, listed: seq<string>, field: Field, key: string)
    requires s.key !in listed
    ensures Lookup(init + [s], listed, field, key) == Lookup(init, listed, field, key)
  {
    hide Matches;
    if listed != [] {
      var n := |listed| - 1;
      assert listed == listed[..n] + [listed[n]];
      LookupUnchanged(init, s, listed[..n], field, key);
      assert (init + [s])[..|init|] == init;
    }
  }

  /** In a lookup that reads it, it takes the place of the file it overwrites. */
  lemma {:induction false} LookupReplaced(
    init: seq<Segment>, s: Segment, listed: seq<string>, field: Field, key: string)
    requires s.key in listed && Distinct(listed)
    ensures |Lookup(init + [s], listed, field, key)| + |Matches(Stored(init, s.key), field, key)|
         == |Lookup(init, listed, field, key)| + |Matches(s.dscs, field, key)|
  {
    hide Matches;
    var n := |listed| - 1;
    assert listed == listed[..n] + [listed[n]];
    assert (init + [s])[..|init|] == init;
    if listed[n] == s.key {
      LookupUnchanged(init, s, listed[..n], field, key);
    } else {
      LookupReplaced(init, s, listed[..n], field, key);
    }
  }

  lemma {:induction false} MatchesSplit(left: seq<Record>, right: seq<Record>, field: Field, key: string)
    ensures Matches(left + right, field, key) == Matches(left, field, key) + Matches(right, field, key)
  {
    hide IndexKey, Matches;
    if right == [] {
      assert left + right == left;
      MatchesSnoc([], Record(None, "", "", None), field, key);
    } else {
      var n := |right| - 1;
      var init, last := right[..n], right[n];
      MatchesSplit(left, init, field, key);
      assert right == init + [last] && left + right == (left + init) + [last];
      MatchesSnoc(left + init, last, field, key);
      MatchesSnoc(init, last, field, key);
    }
  }

  lemma MatchesSnoc(dscs: seq<Record>, r: Record, field: Field, key: string)
    ensures Matches([], field, key) == []
    ensures Matches(dscs + [r], field, key)
         == Matches(dscs, field, key) + if IndexKey(field, r) == Some(key) then [r] else []
  {
    hide IndexKey;
    assert (dscs + [r])[..|dscs|] == dscs;
  }

  /** A segment with a match whose file a later segment overwrites. */
  ghost predicate Overwritten(segments: seq<Segment>, field: Field, key: string) {
    exists i, j | 0 <= i < j < |segments| ::
      segments[i].key == segments[j].key && Matches(segments[i].dscs, field, key) != []
  }

  function Found(segments: seq<Segment>, field: Field, key: string): seq<Record> {
    Lookup(segments, ListedKeys(segments, field, key), field, key)
  }

  function AllMatches(segments: seq<Segment>, field: Field, key: string): seq<Record> {
    Matches(AllRecords(segments), field, key)
  }

  /** One more segment, under a key not listed yet. */
  lemma FoundWithNewKey(init: seq<Segment>, s: Segment, field: Field, key: string)
    requires s.key !in ListedKeys(init, field, key)
    ensures Found(init + [s], field, key) == Found(init, field, key) + Matches(s.dscs, field, key)
    ensures AllMatches(init + [s], field, key) == AllMatches(init, field, key) + Matches(s.dscs, field, key)
    ensures Overwritten(init + [s], field, key) <==> Overwritten(init, field, key)
  {
    hide Matches, Lookup;
    var listed := ListedKeys(init, field, key);
    assert (init + [s])[..|init|] == init;
    LookupUnchanged(init, s, listed, field, key);
    MatchesSplit(AllRecords(init), s.dscs, field, key);
    LookupOneMore(init + [s], listed, s.key, field, key);
    ListedExactly(init, field, key);
    OverwrittenSnoc(init, s, field, key);
  }

  lemma LookupOneMore(segments: seq<Segment>, listed: seq<string>, k: string, field: Field, key: string)
    ensures Lookup(segments, listed + [k], field, key)
         == Lookup(segments, listed, field, key) + Matches(Stored(segments, k), field, key)
  {
    assert (listed + [k])[..|listed|] == listed;
  }

  lemma OverwrittenSnoc(init: seq<Segment>, s: Segment, field: Field, key: string)
    ensures Overwritten(init + [s], field, key)
       <==> Overwritten(init, field, key) || s.key in ListedKeys(init, field, key)
  {
    hide Matches, ListedKeys;
    var segments, n := init + [s], |init|;
    ListedExactly(init, field, key);
    if Overwritten(init, field, key) {
      var i, j :| 0 <= i < j < n && init[i].key == init[j].key && Matches(init[i].dscs, field, key) != [];
      assert segments[i].key == segments[j].key && Matches(segments[i].dscs, field, key) != [];
    }
    if s.key in ListedKeys(init, field, key) {
      var i :| 0 <= i < n && init[i].key == s.key && Matches(init[i].dscs, field, key) != [];
      assert segments[i].key == segments[n].key && Matches(segments[i].dscs, field, key) != [];
    }
    if Overwritten(segments, field, key) {
      var i, j :| 0 <= i < j < |segments| && segments[i].key == segments[j].key
                  && Matches(segments[i].dscs, field, key) != [];
      assert segments[i] == init[i];
      if j < n {
        assert init[i].key == init[j].key;
      }
    }
  }

  /** One more segment, overwriting a listed file: its records are missed for good. */
  lemma FoundWithOldKey(init: seq<Segment>, s: Segment, field: Field, key: string)
    requires s.key in ListedKeys(init, field, key)
    ensures |Found(init + [s], field, key)| + |Matches(Stored(init, s.key), field, key)|
         == |Found(init, field, key)| + |Matches(s.dscs, field, key)|
    ensures |AllMatches(init + [s], field, key)| == |AllMatches(init, field, key)| + |Matches(s.dscs, field, key)|
    ensures Overwritten(init + [s], field, key)
  {
    hide Matches, Lookup;
    var listed := ListedKeys(init, field, key);
    assert (init + [s])[..|init|] == init;
    ListedExactly(init, field, key);
    LookupReplaced(init, s, listed, field, key);
    MatchesSplit(AllRecords(init), s.dscs, field, key);
    OverwrittenSnoc(init, s, field, key);
  }

  /**
  A lookup finds, in order, the matches in all segments, exactly when no segment with a match was
  overwritten; otherwise it finds fewer.
  */
  lemma {:induction false} LookupIsScanIff(segments: seq<Segment>, field: Field, key: string)
    ensures Found(segments, field, key) == AllMatches(segments, field, key) <==> !Overwritten(segments, field, key)
    ensures Overwritten(segments, field, key) ==> |Found(segments, field, key)| < |AllMatches(segments, field, key)|
    ensures !Overwritten(segments, field, key) ==>
              forall k <- ListedKeys(segments, field, key) :: Matches(Stored(segments, k), field, key) != []
  {
    hide Found, AllMatches, Overwritten, Matches, Lookup;
    if segments == [] {
      NothingFound(field, key);
    } else {
      var n := |segments| - 1;
      var init, s := segments[..n], segments[n];
      assert segments == init + [s];
      LookupIsScanIff(init, field, key);
      if s.key in ListedKeys(init, field, key) {
        FoundWithOldKey(init, s, field, key);
      } else {
        FoundWithNewKey(init, s, field, key);
      }
    }
  }

  lemma NothingFound(field: Field, key: string)
    ensures Found([], field, key) == AllMatches([], field, key) == []
    ensures ListedKeys([], field, key) == [] && !Overwritten([], field, key)
  {
  }

  /**
  The index agrees with a linear scan, for every key of either index, exactly when no two country
  keys clash.
  */
  lemma LookupsAgreeIff(dscs: seq<Record>, countries: seq<string>)
    requires IsOrder(countries, dscs)
    ensures (forall field, key ::
               Found(SegmentsOf(dscs, countries), field, key) == AllMatches(SegmentsOf(dscs, countries), field, key))
       <==> !Clashes(dscs, countries)
  {
    hide Found, AllMatches, SegmentsOf, Clash, Lookup;
    var segments := SegmentsOf(dscs, countries);
    KeysDistinctIff(dscs, countries);
    forall field, key
      ensures Found(segments, field, key) == AllMatches(segments, field, key) <==> !Overwritten(segments, field, key)
    {
      LookupIsScanIff(segments, field, key);
    }
    if Clashes(dscs, countries) {
      var i, j := ClashShares(dscs, countries);
      SegmentsAreSmall(dscs, countries);
      assert segments[i] in segments;
      var r := segments[i].dscs[|segments[i].dscs| - 1];
      var key := IndexKey(IssuerSerial, r).value;
      assert Matches(segments[i].dscs, IssuerSerial, key) != [];
      assert Overwritten(segments, IssuerSerial, key);
    }
  }

  // ---- The first hit ----

  /**
  Looking up one certificate by issuer and serial number: the first listed file with a match ends the
  search, and within a file a later record with the same key has replaced an earlier one.
  */
  function FirstHit(segments: seq<Segment>, listed: seq<string>, key: string): Option<Record> {
    if listed == [] then None
    else
      var found := Matches(Stored(segments, listed[0]), IssuerSerial, key);
      if found != [] then Some(found[|found| - 1]) else FirstHit(segments, listed[1..], key)
  }

  method ResolveDscCertificate(segments: seq<Segment>, listed: seq<string>, key: string) returns (entry: Option<Record>)
    ensures entry == FirstHit(segments, listed, key)
  {
    hide Matches, Stored;
    assert listed[0..] == listed;
    for i := 0 to |listed|
      invariant FirstHit(segments, listed, key) == FirstHit(segments, listed[i..], key)
    {
      assert listed[i..][0] == listed[i] && listed[i..][1..] == listed[i + 1..];
      var found := Matches(Stored(segments, listed[i]), IssuerSerial, key);
      if found != [] {
        return Some(found[|found| - 1]);
      }
    }
    entry := None;
  }

  lemma LookupSnoc(segments: seq<Segment>, first: string, rest: seq<string>, key: string)
    ensures Lookup(segments, [], IssuerSerial, key) == []
    ensures Lookup(segments, [first] + rest, IssuerSerial, key)
         == Matches(Stored(segments, first), IssuerSerial, key) + Lookup(segments, rest, IssuerSerial, key)
    decreases |rest|
  {
    hide Matches, Stored;
    var all := [first] + rest;
    if rest == [] {
      assert all[..0] == [] && all == [first];
    } else {
      var n := |rest| - 1;
      LookupSnoc(segments, first, rest[..n], key);
      assert all[..n + 1] == [first] + rest[..n] && all[n + 1] == rest[n];
    }
  }

  /** The search finds one of the records that a search of all listed files finds, if there is any. */
  lemma {:induction false} FirstHitIsFound(segments: seq<Segment>, listed: seq<string>, key: string)
    ensures var hit := FirstHit(segments, listed, key);
            var found := Lookup(segments, listed, IssuerSerial, key);
            (hit == None <==> found == []) && (hit.Some? ==> hit.value in found)
  {
    hide Matches, Stored, Lookup;
    if listed == [] {
      LookupSnoc(segments, "", [], key);
    } else {
      assert listed == [listed[0]] + listed[1..];
      LookupSnoc(segments, listed[0], listed[1..], key);
      FirstHitIsFound(segments, listed[1..], key);
    }
  }

  /**
  Without a clash of country keys a certificate is resolved exactly when a record of any segment has
  its issuer and serial number, and then to such a record.
  */
  lemma ResolvesWithoutClash(dscs: seq<Record>, countries: seq<string>, key: string)
    requires IsOrder(countries, dscs) && !Clashes(dscs, countries)
    ensures var segments := SegmentsOf(dscs, countries);
            var hit := FirstHit(segments, ListedKeys(segments, IssuerSerial, key), key);
            var all := AllMatches(segments, IssuerSerial, key);
            (hit == None <==> all == []) && (hit.Some? ==> hit.value in all)
  {
    hide SegmentsOf, FirstHit, AllMatches, Lookup, ListedKeys, Clashes;
    var segments := SegmentsOf(dscs, countries);
    KeysDistinctIff(dscs, countries);
    LookupIsScanIff(segments, IssuerSerial, key);
    FirstHitIsFound(segments, ListedKeys(segments, IssuerSerial, key), key);
  }
}
