/**
Where `DscSegments` puts a record and what it lists it under, stated by the record's own fields and the
case of their letters.
*/
module DscListing {
  import opened Wrappers
  import Decimal
  import Ldif
  import opened DscSegments
  import opened DscLookup

  /** `u` is `s` with its small letters as capitals. */
  ghost predicate IsUpperOf(u: string, s: string) {
    |u| == |s| && forall i | 0 <= i < |s| :: u[i] as int == s[i] as int - if 'a' <= s[i] <= 'z' then 32 else 0
  }

  /** `l` is `s` with its capitals as small letters. */
  ghost predicate IsLowerOf(l: string, s: string) {
    |l| == |s| && forall i | 0 <= i < |s| :: l[i] as int == s[i] as int + if 'A' <= s[i] <= 'Z' then 32 else 0
  }

  /** The name of the country whose segments a record goes to. */
  ghost predicate IsCountryOf(country: string, r: Record) {
    match r.country
    case None => country == "UNKNOWN"
    case Some(code) => IsUpperOf(country, code)
  }

  /** The name itself, or the name and a number of at least two digits. */
  ghost predicate IsSegmentName(name: string, country: string) {
    || name == country
    || exists digits :: |digits| >= 2 && (forall d <- digits :: '0' <= d <= '9') && name == country + "-" + digits
  }

  ghost predicate IsListed(index: map<string, seq<string>>, key: string, name: string) {
    key in index && name in index[key]
  }

  // ---- The case of letters ----

  lemma LowerIs(l: string, s: string)
    ensures IsLowerOf(l, s) <==> l == Ldif.Lower(s)
  {
  }

  lemma CountryIs(country: string, r: Record)
    ensures IsCountryOf(country, r) <==> country == CountryKey(r)
  {
  }

  lemma LowerTwice(issuer: string, serial: string)
    ensures Ldif.Lower(issuer + ":" + Ldif.Lower(serial)) == Ldif.Lower(issuer) + ":" + Ldif.Lower(serial)
  {
  }

  lemma LowerOfBoth(issuer: string, serial: string)
    ensures Ldif.Lower(issuer + ":" + serial) == Ldif.Lower(issuer) + ":" + Ldif.Lower(serial)
  {
  }

  // ---- Where a record goes ----

  lemma {:induction false} InGroup(dscs: seq<Record>, r: Record)
    requires r in dscs
    ensures r in Group(dscs, CountryKey(r))
  {
    hide CountryKey;
    var n := |dscs| - 1;
    assert dscs == dscs[..n] + [dscs[n]];
    if r != dscs[n] {
      InGroup(dscs[..n], r);
    }
  }

  lemma {:induction false} InSomeChunk<T>(chunks: seq<seq<T>>, x: T) returns (i: nat)
    requires x in Concat(chunks)
    ensures i < |chunks| && x in chunks[i]
  {
    if x in chunks[0] {
      i := 0;
    } else {
      var j := InSomeChunk(chunks[1..], x);
      i := j + 1;
    }
  }

  lemma {:induction false} InMatches(dscs: seq<Record>, field: Field, key: string, r: Record)
    ensures r in Matches(dscs, field, key) <==> r in dscs && IndexKey(field, r) == Some(key)
  {
    hide IndexKey;
    if dscs != [] {
      var n := |dscs| - 1;
      InMatches(dscs[..n], field, key, r);
      assert dscs == dscs[..n] + [dscs[n]];
    }
  }

  lemma SegmentNameIs(country: string, i: nat, count: nat)
    ensures IsSegmentName(SegmentKey(country, i, count), country)
  {
    if count != 1 {
      var digits := Padded(i + 1);
      assert |digits| >= 2 by {
        assert i + 1 >= 10 ==> |Decimal.Text(i + 1)| == |Decimal.Text((i + 1) / 10)| + 1;
      }
      assert SegmentKey(country, i, count) == country + "-" + digits;
    }
  }

  /** Several segments of a country are numbered from one, in the order of their records. */
  lemma SegmentNumbers(country: string, i: nat, count: nat)
    requires count != 1
    ensures exists digits ::
              && |digits| >= 2 && SegmentKey(country, i, count) == country + "-" + digits
              && Decimal.Value(digits) == i + 1
  {
    var digits := Padded(i + 1);
    PaddedValue(i + 1);
    SegmentNameIs(country, i, count);
    assert |digits| >= 2 by {
      assert i + 1 >= 10 ==> |Decimal.Text(i + 1)| == |Decimal.Text((i + 1) / 10)| + 1;
    }
    assert SegmentKey(country, i, count) == country + "-" + digits;
  }

  lemma ListedUnder(
    index: map<string, seq<string>>, segments: seq<Segment>, field: Field, key: string, k: nat, r: Record)
    requires Lists(index, segments, field) && k < |segments| && r in segments[k].dscs
    requires IndexKey(field, r) == Some(key)
    ensures IsListed(index, key, segments[k].key)
  {
    hide IndexKey, Matches, ListedKeys;
    InMatches(segments[k].dscs, field, key, r);
    ListedExactly(segments, field, key);
    assert segments[k].key == segments[k].key && Matches(segments[k].dscs, field, key) != [];
    assert Listed(index, key) == ListedKeys(segments, field, key);
    assert segments[k].key in ListedKeys(segments, field, key);
  }

  /**
  Every record is in a segment named after its country, and that segment is listed under the record's
  issuer and serial number and, if it has one, under its subject key identifier, in small letters.
  */
  lemma RecordIsListed(
    dscs: seq<Record>, countries: seq<string>, issuerIndex: map<string, seq<string>>,
    skiIndex: map<string, seq<string>>, r: Record, country: string, issuer: string, serial: string)
    returns (k: nat)
    requires IsOrder(countries, dscs) && r in dscs && IsCountryOf(country, r)
    requires Lists(issuerIndex, SegmentsOf(dscs, countries), IssuerSerial)
    requires Lists(skiIndex, SegmentsOf(dscs, countries), Ski)
    requires IsLowerOf(issuer, r.issuerKey) && IsLowerOf(serial, r.serialHex)
    ensures var segments := SegmentsOf(dscs, countries);
            && k < |segments| && r in segments[k].dscs && IsSegmentName(segments[k].key, country)
            && IsListed(issuerIndex, issuer + ":" + serial, segments[k].key)
            && forall ski | r.skiHex.Some? && r.skiHex.value != "" && IsLowerOf(ski, r.skiHex.value) ::
                 IsListed(skiIndex, ski, segments[k].key)
  {
    hide Group, Chunks, SegmentsOf, SegmentKey, Lists, IsSegmentName, IsLowerOf, Ldif.Lower, CountryKey;
    CountryIs(country, r);
    var segments := SegmentsOf(dscs, countries);
    var at :| 0 <= at < |dscs| && dscs[at] == r;
    assert HasCountry(dscs, country);
    InGroup(dscs, r);
    ChunksShape(Group(dscs, country), MAX_DSCS_PER_SEGMENT);
    var i := InSomeChunk(CountryChunks(dscs, country), r);
    k := SegmentPosition(dscs, countries, country, i);
    SegmentNameIs(country, i, |CountryChunks(dscs, country)|);
    LowerIs(issuer, r.issuerKey);
    LowerIs(serial, r.serialHex);
    LowerTwice(r.issuerKey, r.serialHex);
    ListedUnder(issuerIndex, segments, IssuerSerial, issuer + ":" + serial, k, r);
    forall ski | r.skiHex.Some? && r.skiHex.value != "" && IsLowerOf(ski, r.skiHex.value)
      ensures IsListed(skiIndex, ski, segments[k].key)
    {
      LowerIs(ski, r.skiHex.value);
      ListedUnder(skiIndex, segments, Ski, ski, k, r);
    }
  }

  /** And nothing else is listed: a name listed under a key is of a segment with a record of that key. */
  lemma ListedHasRecord(
    index: map<string, seq<string>>, segments: seq<Segment>, field: Field, key: string, name: string)
    returns (k: nat, r: Record)
    requires Lists(index, segments, field) && IsListed(index, key, name)
    ensures k < |segments| && segments[k].key == name && r in segments[k].dscs
    ensures match field
            case IssuerSerial => IsLowerOf(key, r.issuerKey + ":" + r.serialHex)
            case Ski => r.skiHex.Some? && r.skiHex.value != "" && IsLowerOf(key, r.skiHex.value)
  {
    hide IndexKey, Matches, ListedKeys, Ldif.Lower, IsLowerOf;
    assert Listed(index, key) == ListedKeys(segments, field, key);
    ListedExactly(segments, field, key);
    var i :| 0 <= i < |segments| && segments[i].key == name && Matches(segments[i].dscs, field, key) != [];
    k := i;
    r := Matches(segments[i].dscs, field, key)[0];
    InMatches(segments[i].dscs, field, key, r);
    KeyOfField(field, r, key);
  }

  lemma KeyOfField(field: Field, r: Record, key: string)
    requires IndexKey(field, r) == Some(key)
    ensures match field
            case IssuerSerial => IsLowerOf(key, r.issuerKey + ":" + r.serialHex)
            case Ski => r.skiHex.Some? && r.skiHex.value != "" && IsLowerOf(key, r.skiHex.value)
  {
    hide Ldif.Lower, IsLowerOf;
    match field
    case IssuerSerial =>
      LowerTwice(r.issuerKey, r.serialHex);
      LowerOfBoth(r.issuerKey, r.serialHex);
      LowerIs(key, r.issuerKey + ":" + r.serialHex);
    case Ski => LowerIs(key, r.skiHex.value);
  }

  // ---- In which order ----

  /** The records at the places, which rise, are those of the group. */
  ghost predicate InOrder(dscs: seq<Record>, group: seq<Record>, places: seq<nat>) {
    && Rising(places) && |places| == |group|
    && forall k | 0 <= k < |places| :: places[k] < |dscs| && dscs[places[k]] == group[k]
  }

  ghost predicate AreExactly(dscs: seq<Record>, country: string, places: seq<nat>) {
    forall i: nat | i < |dscs| :: i in places <==> IsCountryOf(country, dscs[i])
  }

  lemma InOrderSnoc(init: seq<Record>, r: Record, group: seq<Record>, places: seq<nat>)
    requires InOrder(init, group, places)
    ensures InOrder(init + [r], group, places)
    ensures InOrder(init + [r], group + [r], places + [|init|])
  {
  }

  lemma ExactlySnoc(init: seq<Record>, r: Record, country: string, places: seq<nat>)
    requires AreExactly(init, country, places) && forall k | 0 <= k < |places| :: places[k] < |init|
    ensures AreExactly(init + [r], country, if IsCountryOf(country, r) then places + [|init|] else places)
  {
    hide IsCountryOf;
    var dscs, n := init + [r], |init|;
    assert n !in places;
    forall i: nat | i < n ensures i in places <==> IsCountryOf(country, dscs[i]) {
      assert dscs[i] == init[i];
    }
  }

  /** The records of a country keep their order: they are those at rising places, and no others are. */
  lemma {:induction false} GroupInOrder(dscs: seq<Record>, country: string) returns (places: seq<nat>)
    ensures InOrder(dscs, Group(dscs, country), places) && AreExactly(dscs, country, places)
  {
    hide CountryKey, IsCountryOf, Group, AreExactly;
    if dscs == [] {
      places := [];
      NoneInOrder(country);
    } else {
      var init, r := dscs[..|dscs| - 1], dscs[|dscs| - 1];
      assert dscs == init + [r];
      places := GroupInOrder(init, country);
      CountryIs(country, r);
      GroupGainsOne(init, r, country);
      InOrderSnoc(init, r, Group(init, country), places);
      ExactlySnoc(init, r, country, places);
      if CountryKey(r) == country {
        places := places + [|init|];
      } else {
        assert Group(init, country) + [] == Group(init, country);
      }
    }
  }

  lemma NoneInOrder(country: string)
    ensures InOrder([], Group([], country), []) && AreExactly([], country, [])
  {
  }

  /** All segments of a country but its last hold a thousand records. */
  lemma SegmentsAreFull(dscs: seq<Record>, country: string, i: nat)
    requires i + 1 < |CountryChunks(dscs, country)|
    ensures |CountryChunks(dscs, country)[i]| == 1000
  {
    hide Chunks, Group;
    ChunksShape(Group(dscs, country), MAX_DSCS_PER_SEGMENT);
  }
}
