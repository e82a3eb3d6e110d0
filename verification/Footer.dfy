/** The structure information at the end of a database file, and the size of its index. */
module Footer {
  import opened Bits
  import opened Bytes

  const COUNTRY_BEGIN := 16776960
  const LARGE_COUNTRY_BEGIN := 16515072
  const STATE_BEGIN_REV0 := 16700000
  const STATE_BEGIN_REV1 := 16000000
  const STRUCTURE_INFO_MAX_SIZE := 20
  const STANDARD_RECORD_LENGTH := 3
  const ORG_RECORD_LENGTH := 4

  const COUNTRY_EDITION := 1
  const CITY_EDITION_REV1 := 2
  const REGION_EDITION_REV1 := 3
  const ISP_EDITION := 4
  const ORG_EDITION := 5
  const CITY_EDITION_REV0 := 6
  const REGION_EDITION_REV0 := 7
  const PROXY_EDITION := 8
  const ASNUM_EDITION := 9
  const NETSPEED_EDITION := 10
  const DOMAIN_EDITION := 11
  const COUNTRY_EDITION_V6 := 12
  const LOCATIONA_EDITION := 13
  const ACCURACYRADIUS_EDITION := 14
  const LARGE_COUNTRY_EDITION := 17
  const LARGE_COUNTRY_EDITION_V6 := 18
  const ASNUM_EDITION_V6 := 21
  const ISP_EDITION_V6 := 22
  const ORG_EDITION_V6 := 23
  const DOMAIN_EDITION_V6 := 24
  const REGISTRAR_EDITION := 26
  const REGISTRAR_EDITION_V6 := 27
  const USERTYPE_EDITION := 28
  const USERTYPE_EDITION_V6 := 29
  const CITY_EDITION_REV1_V6 := 30
  const CITY_EDITION_REV0_V6 := 31
  const NETSPEED_EDITION_REV1 := 32
  const NETSPEED_EDITION_REV1_V6 := 33
  const COUNTRYCONF_EDITION := 34
  const CITYCONF_EDITION := 35
  const REGIONCONF_EDITION := 36
  const POSTALCONF_EDITION := 37
  const ACCURACYRADIUS_EDITION_V6 := 38

  /** The edition stored in a byte: read into a signed char, and editions of April 2003 and
      earlier are 105 higher. */
  function EditionOf(b: byte): int {
    var t := if b < 128 then b as int else b as int - 256;
    if t >= 106 then t - 105 else t
  }

  /** Editions up to 22 are known by both numberings. A higher one in the old numbering does not
      fit a positive signed char, and no edition is recognised in it. */
  lemma EditionNumbering(t: byte)
    requires 1 <= t <= 150
    ensures t < 106 ==> EditionOf(t) == t
    ensures EditionOf(t + 105) == t <==> t <= 22
    ensures t > 22 ==> !StructureKnown(EditionOf(t + 105))
  {
  }

  /** Whether an edition has a segment value at all. */
  predicate StructureKnown(t: int) {
    TwoSegments(t) || FixedSegment(t).segment.Some?
  }

  /** Editions whose segment value is stored in the footer. */
  predicate TwoSegments(t: int) {
    || t == CITY_EDITION_REV0 || t == CITY_EDITION_REV1
    || OrgLike(t)
    || t == REGISTRAR_EDITION || t == REGISTRAR_EDITION_V6
    || t == USERTYPE_EDITION || t == USERTYPE_EDITION_V6
    || t == ASNUM_EDITION || t == ASNUM_EDITION_V6
    || t == NETSPEED_EDITION_REV1 || t == NETSPEED_EDITION_REV1_V6
    || t == LOCATIONA_EDITION
    || t == ACCURACYRADIUS_EDITION || t == ACCURACYRADIUS_EDITION_V6
    || t == CITY_EDITION_REV0_V6 || t == CITY_EDITION_REV1_V6
    || t == CITYCONF_EDITION || t == COUNTRYCONF_EDITION
    || t == REGIONCONF_EDITION || t == POSTALCONF_EDITION
  }

  /** Editions with four-byte pointers. */
  predicate OrgLike(t: int) {
    || t == ORG_EDITION || t == ORG_EDITION_V6
    || t == DOMAIN_EDITION || t == DOMAIN_EDITION_V6
    || t == ISP_EDITION || t == ISP_EDITION_V6
  }

  predicate CountryLike(t: int) {
    t == COUNTRY_EDITION || t == PROXY_EDITION || t == NETSPEED_EDITION || t == COUNTRY_EDITION_V6
  }

  predicate LargeCountryLike(t: int) {
    t == LARGE_COUNTRY_EDITION || t == LARGE_COUNTRY_EDITION_V6
  }

  /** Whether records follow the index. */
  predicate HasContent(t: int) {
    && !CountryLike(t) && !LargeCountryLike(t)
    && t != REGION_EDITION_REV0 && t != REGION_EDITION_REV1
  }

  predicate Marker(bytes: seq<byte>, p: int) {
    0 <= p && p + 3 <= |bytes| && bytes[p] == 255 && bytes[p + 1] == 255 && bytes[p + 2] == 255
  }

  datatype Scan = Found(at: nat) | Unreadable | OffStart | NoMarker

  /** Scans `tries` overlapping windows backwards from p. */
  function FindMarker(bytes: seq<byte>, p: int, tries: nat): Scan {
    if tries == 0 then NoMarker
    else if p < 0 || p + 3 > |bytes| then Unreadable
    else if Marker(bytes, p) then Found(p)
    else if p == 0 then OffStart
    else FindMarker(bytes, p - 1, tries - 1)
  }

  /** What the footer says; no segment value means the file is rejected as corrupt. */
  datatype Structure = Structure(segment: Option<nat>, edition: int, recordLength: nat)

  function StructureOf(bytes: seq<byte>): Structure {
    match FindMarker(bytes, |bytes| - 3, STRUCTURE_INFO_MAX_SIZE)
    case Unreadable => Structure(None, COUNTRY_EDITION, STANDARD_RECORD_LENGTH)
    case OffStart => Structure(None, COUNTRY_EDITION, STANDARD_RECORD_LENGTH)
    case NoMarker => FixedSegment(COUNTRY_EDITION)
    case Found(p) =>
      if p + 4 > |bytes| then Structure(None, COUNTRY_EDITION, STANDARD_RECORD_LENGTH)
      else
        var t := EditionOf(bytes[p + 3]);
        if TwoSegments(t) then
          if p + 7 > |bytes| then Structure(None, t, STANDARD_RECORD_LENGTH)
          else Structure(Some(Le(bytes[p + 4..p + 7])), t,
                         if OrgLike(t) then ORG_RECORD_LENGTH else STANDARD_RECORD_LENGTH)
        else FixedSegment(t)
  }

  /** Editions whose segment value is a constant. */
  function FixedSegment(t: int): Structure {
    Structure(
      if t == REGION_EDITION_REV0 then Some(STATE_BEGIN_REV0)
      else if t == REGION_EDITION_REV1 then Some(STATE_BEGIN_REV1)
      else if CountryLike(t) then Some(COUNTRY_BEGIN)
      else if LargeCountryLike(t) then Some(LARGE_COUNTRY_BEGIN)
      else None,
      t, STANDARD_RECORD_LENGTH)
  }

  lemma ScanStep(bytes: seq<byte>, p: int, tries: nat)
    ensures FindMarker(bytes, p, tries) ==
            if tries == 0 then NoMarker
            else if p < 0 || p + 3 > |bytes| then Unreadable
            else if Marker(bytes, p) then Found(p)
            else if p == 0 then OffStart
            else FindMarker(bytes, p - 1, tries - 1)
  {
  }

  /** An edition has at most one source for its segment value. */
  lemma EditionsDisjoint(t: int)
    ensures TwoSegments(t) || t == REGION_EDITION_REV0 || t == REGION_EDITION_REV1 ==>
              !CountryLike(t) && !LargeCountryLike(t)
    ensures OrgLike(t) ==> TwoSegments(t)
    ensures CountryLike(COUNTRY_EDITION)
    ensures t == REGION_EDITION_REV0 || t == REGION_EDITION_REV1 ==> !TwoSegments(t)
  {
  }

  /** The backward scan, in one statement about the bytes. */
  lemma {:induction false} ScanSelectsLast(bytes: seq<byte>, p: int, tries: nat)
    requires p + 3 <= |bytes| && tries > 0
    ensures var r := FindMarker(bytes, p, tries);
            && (r.Unreadable? <==> p < 0)
            && (r.Found? ==> p - tries < r.at <= p && Marker(bytes, r.at)
                             && forall q | r.at < q <= p :: !Marker(bytes, q))
            && (!r.Found? ==> forall q | p - tries < q <= p :: !Marker(bytes, q))
            && (r.NoMarker? ==> p >= tries)
            && (r.OffStart? ==> 0 <= p < tries)
    decreases tries
  {
    if p > 0 && !Marker(bytes, p) && tries > 1 {
      ScanSelectsLast(bytes, p - 1, tries - 1);
    }
  }

  /** The scan finds p exactly when p is the last marker among the final twenty windows. */
  lemma MarkerFound(bytes: seq<byte>, p: nat)
    ensures FindMarker(bytes, |bytes| - 3, STRUCTURE_INFO_MAX_SIZE) == Found(p) <==>
            && Marker(bytes, p) && |bytes| - 22 <= p
            && forall q | p < q <= |bytes| - 3 :: !Marker(bytes, q)
  {
    ScanSelectsLast(bytes, |bytes| - 3, STRUCTURE_INFO_MAX_SIZE);
  }

  /** Segment values always fit three bytes and pointers three or four, whatever the bytes. */
  lemma StructureBounds(bytes: seq<byte>)
    ensures var f := StructureOf(bytes);
            && (f.segment.Some? ==> f.segment.value < 0x100_0000)
            && (f.recordLength == 3 || f.recordLength == 4)
  {
    match FindMarker(bytes, |bytes| - 3, STRUCTURE_INFO_MAX_SIZE)
    case Found(p) => if p + 7 <= |bytes| { Le3Value(bytes[p + 4..p + 7]); }
    case _ =>
  }

  function FooterBytes(edition: byte, segment: nat): seq<byte>
    requires segment < 0x100_0000
  {
    [255, 255, 255, edition] + Le3(segment)
  }

  /** The marker, edition and segment value appended to any bytes are recovered, unless the
      segment value itself reads as a marker. */
  lemma FooterRoundTrip(prefix: seq<byte>, edition: byte, segment: nat)
    requires TwoSegments(EditionOf(edition)) && segment < 0x100_0000
    ensures var bytes := prefix + FooterBytes(edition, segment);
            && StructureOf(bytes) ==
               (if segment == 0xFF_FFFF then Structure(None, COUNTRY_EDITION, 3)
                else Structure(Some(segment), EditionOf(edition), if OrgLike(EditionOf(edition)) then 4 else 3))
            && (segment != 0xFF_FFFF ==>
                  FindMarker(bytes, |bytes| - 3, STRUCTURE_INFO_MAX_SIZE) == Found(|prefix|))
  {
    var bytes := prefix + FooterBytes(edition, segment);
    var n := |prefix|;
    Le3RoundTrip(segment, Le3(segment));
    assert bytes[n + 4..n + 7] == Le3(segment);
    assert bytes[n + 3] == edition && Marker(bytes, n);
    if segment == 0xFF_FFFF {
      assert Marker(bytes, n + 4);
      MarkerFound(bytes, n + 4);
    } else {
      Le3RoundTrip(segment, [255, 255, 255]);
      Le3Value([255, 255, 255]);
      assert !Marker(bytes, n + 4);
      MarkerFound(bytes, n);
    }
  }

  lemma LastMarker(prefix: seq<byte>, t: byte, tail: seq<byte>)
    requires t < 255 && |tail| <= 18
    requires forall k | 0 <= k < |tail| - 2 :: tail[k] != 255 || tail[k + 1] != 255 || tail[k + 2] != 255
    ensures var bytes := prefix + [255, 255, 255, t] + tail;
            && FindMarker(bytes, |bytes| - 3, STRUCTURE_INFO_MAX_SIZE) == Found(|prefix|)
            && bytes[|prefix| + 3] == t && bytes[|prefix| + 4..] == tail
            && (|tail| >= 3 ==> bytes[|prefix| + 4..|prefix| + 7] == tail[..3])
  {
    var bytes := prefix + [255, 255, 255, t] + tail;
    var n := |prefix|;
    MarkerFound(bytes, n);
    hide FindMarker;
    assert bytes[n] == 255 && bytes[n + 1] == 255 && bytes[n + 2] == 255 && bytes[n + 3] == t;
    assert bytes[n + 4..] == tail;
    forall q | n < q <= |bytes| - 3
      ensures !Marker(bytes, q)
    {
      NoMarkerBehind(bytes, n + 4, q);
    }
  }

  lemma NoMarkerBehind(bytes: seq<byte>, at: nat, q: nat)
    requires 4 <= at <= |bytes| && at - 4 < q <= |bytes| - 3 && bytes[at - 1] < 255
    requires var tail := bytes[at..];
             forall k | 0 <= k < |tail| - 2 :: tail[k] != 255 || tail[k + 1] != 255 || tail[k + 2] != 255
    ensures !Marker(bytes, q)
  {
    if q >= at {
      var tail, k := bytes[at..], q - at;
      assert tail[k] == bytes[q] && tail[k + 1] == bytes[q + 1] && tail[k + 2] == bytes[q + 2];
    }
  }

  /** What each edition byte behind a marker means, for every file: the edition number, where the
      segment value comes from, and the length of a record. */
  lemma EditionTable(prefix: seq<byte>, t: byte, tail: seq<byte>)
    requires t < 255 && |tail| <= 18
    requires forall k | 0 <= k < |tail| - 2 :: tail[k] != 255 || tail[k + 1] != 255 || tail[k + 2] != 255
    ensures var f := StructureOf(prefix + [255, 255, 255, t] + tail);
            var edition := if t < 106 then t else if t < 128 then t - 105 else t - 256;
            var stored := if |tail| < 3 then None
                          else Some(tail[0] as int + 256 * tail[1] as int + 0x1_0000 * tail[2] as int);
            && f.edition == edition
            && (edition in {1, 8, 10, 12} ==> f.segment == Some(16776960) && f.recordLength == 3)
            && (edition in {17, 18} ==> f.segment == Some(16515072) && f.recordLength == 3)
            && (edition == 7 ==> f.segment == Some(16700000) && f.recordLength == 3)
            && (edition == 3 ==> f.segment == Some(16000000) && f.recordLength == 3)
            && (edition in {4, 5, 11, 22, 23, 24} ==>
                  f.segment == stored && f.recordLength == if |tail| < 3 then 3 else 4)
            && (edition in {2, 6, 9, 13, 14, 21} || 26 <= edition <= 38 ==>
                  f.segment == stored && f.recordLength == 3)
            && (edition <= 0 || edition in {15, 16, 19, 20, 25} || edition > 38 ==>
                  f.segment == None && f.recordLength == 3)
  {
    LastMarker(prefix, t, tail);
    if |tail| >= 3 {
      Le3Value(tail[..3]);
    }
    hide FindMarker, Le;
  }

  /** A marker at the very end has no edition byte behind it, and the file is rejected. */
  lemma MarkerAtEnd(prefix: seq<byte>)
    ensures StructureOf(prefix + [255, 255, 255]) == Structure(None, 1, 3)
  {
    var bytes := prefix + [255, 255, 255];
    assert Marker(bytes, |prefix|);
    MarkerFound(bytes, |prefix|);
    hide FindMarker;
  }

  /** The index of the editions without records is the whole file; that of every other is its nodes. */
  lemma IndexTable(edition: int, segment: nat, recordLength: nat, fileSize: nat)
    ensures IndexSize(edition, segment, recordLength, fileSize) ==
            if edition in {1, 3, 7, 8, 10, 12, 17, 18} then fileSize
            else if 2 * recordLength * segment > fileSize then -1
            else 2 * recordLength * segment
  {
  }

  /** A file of 23 bytes or more without a marker in its last 22 bytes is an old Country
      Edition; a shorter one without a marker is rejected. */
  lemma NoMarkerMeansCountry(bytes: seq<byte>)
    requires forall q | |bytes| - 22 <= q <= |bytes| - 3 :: !Marker(bytes, q)
    ensures StructureOf(bytes) ==
            Structure(if |bytes| >= 23 then Some(COUNTRY_BEGIN) else None, COUNTRY_EDITION, 3)
  {
    ScanSelectsLast(bytes, |bytes| - 3, STRUCTURE_INFO_MAX_SIZE);
  }

  /** get_index_size: -1 reports a corrupt file. The product is taken in 64 bits. */
  function IndexSize(edition: int, segment: nat, recordLength: nat, fileSize: nat): (r: int)
    ensures -1 <= r <= fileSize
  {
    if !HasContent(edition) then fileSize
    else if segment * recordLength * 2 > fileSize then -1
    else segment * recordLength * 2
  }

  /** Where node n of the index ends, in bytes from the start of the file. */
  function NodeEnd(n: nat, recordLength: nat): nat {
    2 * recordLength * n + 2 * recordLength
  }

  /** What an index size means. When no records follow, the index is the whole file. Otherwise it is
      the bytes of the nodes numbered below the segment value, up to the end of the last of them, and
      -1 says that one of these nodes ends behind the end of the file. */
  predicate Delimits(r: int, edition: int, segment: nat, recordLength: nat, fileSize: nat) {
    if !HasContent(edition) then r == fileSize
    else if exists n: nat :: n < segment && NodeEnd(n, recordLength) > fileSize then r == -1
    else
      && (forall n: nat | n < segment :: NodeEnd(n, recordLength) <= r)
      && (r == 0 || exists n: nat :: n < segment && NodeEnd(n, recordLength) == r)
  }

  /** The computed size is the one that delimits the index, and no other number does. */
  lemma IndexSizeDelimits(r: int, edition: int, segment: nat, recordLength: nat, fileSize: nat)
    ensures Delimits(r, edition, segment, recordLength, fileSize) <==>
            r == IndexSize(edition, segment, recordLength, fileSize)
  {
    var size := segment * recordLength * 2;
    forall n: nat | n < segment ensures NodeEnd(n, recordLength) <= size {
      MulMono(n + 1, segment, 2 * recordLength);
    }
    if segment > 0 {
      assert NodeEnd(segment - 1, recordLength) == size;
    }
  }
}
