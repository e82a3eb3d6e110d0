/** City records: one variable-length record after another behind the index. */
module City {
  import opened Bits
  import opened Bytes
  import opened Footer
  import opened Trie
  import opened Charset
  import opened GeoIPDatabase

  const FULL_RECORD_LENGTH := 50

  /** The country table entry whose code is "US". */
  const US: byte := 225

  /** What a record stores. */
  datatype Entry = Entry(
    country: byte, region: seq<byte>, city: seq<byte>, postalCode: seq<byte>,
    latitude: nat, longitude: nat, metro: nat, area: nat)

  /** What a caller sees. The country byte stands for the four table strings it selects; absent
      strings are the record's null pointers. */
  datatype View = View(
    country: byte, region: Option<seq<byte>>, city: Option<seq<byte>>, postalCode: Option<seq<byte>>,
    latitude: real, longitude: real, metroCode: int, areaCode: int)

  class GeoIPRecord {
    var country: byte
    var region: Option<seq<byte>>
    var city: Option<seq<byte>>
    var postalCode: Option<seq<byte>>
    var latitude: real
    var longitude: real
    var metroCode: int
    var areaCode: int
    var utf8: bool

    /** malloc and memset */
    constructor ()
      ensures Fields() == View(0, None, None, None, 0.0, 0.0, 0, 0)
    {
      country, region, city, postalCode := 0, None, None, None;
      latitude, longitude, metroCode, areaCode, utf8 := 0.0, 0.0, 0, 0, false;
    }

    function Fields(): View
      reads this
    {
      View(country, region, city, postalCode, latitude, longitude, metroCode, areaCode)
    }
  }

  // ------------------------------------------------------------ the stored form

  predicate Storable(r: Entry) {
    && 0 !in r.region && 0 !in r.city && 0 !in r.postalCode
    && r.latitude < 0x100_0000 && r.longitude < 0x100_0000
    && r.area < 1000 && r.metro * 1000 + r.area < 0x100_0000
  }

  /** Only US records of City Edition Rev 1 carry the metro and area codes. */
  predicate HasMetro(edition: int, country: byte) {
    edition == CITY_EDITION_REV1 && country == US
  }

  function Encode(r: Entry, edition: int): seq<byte>
    requires Storable(r)
  {
    [r.country] + (r.region + [0]) + (r.city + [0]) + (r.postalCode + [0]) + Tail(r, edition)
  }

  function Tail(r: Entry, edition: int): seq<byte>
    requires Storable(r)
  {
    Le3(r.latitude) + Le3(r.longitude) +
    if HasMetro(edition, r.country) then Le3(r.metro * 1000 + r.area) else []
  }

  function Degrees(raw: nat): real {
    raw as real / 10000.0 - 180.0
  }

  function Present(s: seq<byte>): Option<seq<byte>> {
    if s == [] then None else Some(s)
  }

  /** What reading an entry back should show. */
  function Shown(r: Entry, edition: int, utf8: bool): View {
    View(r.country, Present(r.region), Present(if utf8 then Utf8(r.city) else r.city), Present(r.postalCode),
         Degrees(r.latitude), Degrees(r.longitude),
         if HasMetro(edition, r.country) then r.metro else 0,
         if HasMetro(edition, r.country) then r.area else 0)
  }

  // ------------------------------------------------------------ parsing

  /** A NUL-terminated string at the front of a buffer, and what follows it. */
  function Field(s: seq<byte>): (r: Option<(seq<byte>, seq<byte>)>)
    ensures r.Some? ==> |r.value.0| + 1 + |r.value.1| == |s|
  {
    if s == [] then None
    else if s[0] == 0 then Some(([], s[1..]))
    else
      var f := Field(s[1..]);
      if f.None? then None else Some(([s[0]] + f.value.0, f.value.1))
  }

  /** The record at the front of a buffer, and what follows it; None when it is cut short. */
  function Parse(s: seq<byte>, edition: int, utf8: bool): (r: Option<(View, seq<byte>)>)
    ensures r.Some? ==> |r.value.1| < |s|
  {
    if s == [] then None else
    var region := Field(s[1..]);
    if region.None? then None else
    var city := Field(region.value.1);
    if city.None? then None else
    var postal := Field(city.value.1);
    if postal.None? then None else
    ParseTail(postal.value.1, edition, s[0], Present(region.value.0),
              Present(if utf8 then Utf8(city.value.0) else city.value.0), Present(postal.value.0))
  }

  function ParseTail(s: seq<byte>, edition: int, country: byte, region: Option<seq<byte>>,
                     city: Option<seq<byte>>, postal: Option<seq<byte>>): (r: Option<(View, seq<byte>)>)
    ensures r.Some? ==> |r.value.1| < |s|
  {
    var length := if HasMetro(edition, country) then 9 else 6;
    if |s| < length then None
    else
      var combo := if HasMetro(edition, country) then Le(s[6..9]) else 0;
      Some((View(country, region, city, postal, Degrees(Le(s[0..3])), Degrees(Le(s[3..6])),
                 combo / 1000, combo % 1000),
            s[length..]))
  }

  lemma {:induction false} FieldFront(text: seq<byte>, rest: seq<byte>)
    requires 0 !in text
    ensures Field(text + [0] + rest) == Some((text, rest))
  {
    var s := text + [0] + rest;
    if text == [] {
      assert s[1..] == rest;
    } else {
      assert text[0] in text;
      assert s[0] == text[0] && s[1..] == text[1..] + [0] + rest;
      FieldFront(text[1..], rest);
      assert text == [text[0]] + text[1..];
    }
  }

  lemma SplitMetro(metro: nat, area: nat)
    requires area < 1000
    ensures (metro * 1000 + area) / 1000 == metro && (metro * 1000 + area) % 1000 == area
  {
    DivModUnique(metro * 1000 + area, 1000, metro, area);
  }

  lemma TailFront(r: Entry, edition: int, utf8: bool, rest: seq<byte>)
    requires Storable(r)
    ensures ParseTail(Tail(r, edition) + rest, edition, r.country, Present(r.region),
                      Present(if utf8 then Utf8(r.city) else r.city), Present(r.postalCode)) ==
            Some((Shown(r, edition, utf8), rest))
  {
    var s := Tail(r, edition) + rest;
    assert s[0..3] == Le3(r.latitude) && s[3..6] == Le3(r.longitude);
    Le3RoundTrip(r.latitude, Le3(r.latitude));
    Le3RoundTrip(r.longitude, Le3(r.longitude));
    if HasMetro(edition, r.country) {
      var combo := r.metro * 1000 + r.area;
      assert s[6..9] == Le3(combo) && s[9..] == rest;
      Le3RoundTrip(combo, Le3(combo));
      SplitMetro(r.metro, r.area);
    } else {
      assert s[6..] == rest;
    }
    hide Le, Le3, Degrees, Utf8, Present;
  }

  lemma EncodeNests(r: Entry, edition: int, rest: seq<byte>)
    requires Storable(r)
    ensures Encode(r, edition) + rest ==
            [r.country] + (r.region + [0] + (r.city + [0] + (r.postalCode + [0] + (Tail(r, edition) + rest))))
  {
    hide Tail;
  }

  /** What storing a record means, byte for byte. */
  lemma EncodeMeans(r: Entry, edition: int)
    requires Storable(r)
    ensures Encode(r, edition) ==
            [r.country] + r.region + [0] + r.city + [0] + r.postalCode + [0] +
            Le3(r.latitude) + Le3(r.longitude) +
            if edition == 2 && r.country == 225 then Le3(1000 * r.metro + r.area) else []
  {
    hide Le3;
    var strings := [r.country] + r.region + [0] + r.city + [0] + r.postalCode + [0];
    assert [r.country] + (r.region + [0]) + (r.city + [0]) + (r.postalCode + [0]) == strings;
    var numbers := Le3(r.latitude) + Le3(r.longitude);
    Associate(strings, numbers, if edition == 2 && r.country == 225 then Le3(1000 * r.metro + r.area) else []);
    Associate(strings, Le3(r.latitude), Le3(r.longitude));
  }

  /** What reading a record back shows, field for field: a string is absent exactly when it is empty,
      the city name alone is converted, and only US records of Rev 1 have codes. */
  lemma ShownMeans(r: Entry, edition: int, utf8: bool)
    ensures var v := Shown(r, edition, utf8);
            && v.country == r.country
            && v.region == (if r.region == [] then None else Some(r.region))
            && v.city == (if r.city == [] then None else if utf8 then Some(Utf8(r.city)) else Some(r.city))
            && v.postalCode == (if r.postalCode == [] then None else Some(r.postalCode))
            && v.latitude == r.latitude as real / 10000.0 - 180.0
            && v.longitude == r.longitude as real / 10000.0 - 180.0
            && v.metroCode == (if edition == 2 && r.country == 225 then r.metro else 0)
            && v.areaCode == (if edition == 2 && r.country == 225 then r.area else 0)
  {
    Utf8Empty(r.city);
    hide Utf8;
  }

  /** Parsing inverts encoding, whatever follows the record. */
  lemma ParseEncoded(r: Entry, edition: int, utf8: bool, rest: seq<byte>)
    requires Storable(r)
    ensures Parse(Encode(r, edition) + rest, edition, utf8) == Some((Shown(r, edition, utf8), rest))
    ensures var v := Parse(Encode(r, edition) + rest, edition, utf8).value.0;
            && v.region == (if r.region == [] then None else Some(r.region))
            && v.city == (if r.city == [] then None else if utf8 then Some(Utf8(r.city)) else Some(r.city))
            && v.postalCode == (if r.postalCode == [] then None else Some(r.postalCode))
  {
    var tail := Tail(r, edition) + rest;
    var fromPostal := r.postalCode + [0] + tail;
    var fromCity := r.city + [0] + fromPostal;
    var fromRegion := r.region + [0] + fromCity;
    EncodeNests(r, edition, rest);
    assert ([r.country] + fromRegion)[1..] == fromRegion;
    FieldFront(r.region, fromCity);
    FieldFront(r.city, fromPostal);
    FieldFront(r.postalCode, tail);
    TailFront(r, edition, utf8, rest);
    ShownMeans(r, edition, utf8);
    hide Encode, Tail, ParseTail, Field, Utf8, Shown, Present;
  }

  /** Whatever a buffer holds, what is parsed from it is a stored record at its front. */
  lemma EveryParse(s: seq<byte>, edition: int, utf8: bool) returns (r: Entry, rest: seq<byte>)
    requires Parse(s, edition, utf8).Some?
    ensures Storable(r) && s == Encode(r, edition) + rest
  {
    ParseParts(s, edition, utf8);
    hide *;
    var region, fromCity := SplitField(s[1..]);
    var city, fromPostal := SplitField(fromCity);
    var postal, tail := SplitField(fromPostal);
    r, rest := SplitTail(tail, edition, Entry(s[0], region, city, postal, 0, 0, 0, 0));
    assert s == [s[0]] + s[1..];
    EncodeNests(r, edition, rest);
  }

  lemma ParseParts(s: seq<byte>, edition: int, utf8: bool)
    requires Parse(s, edition, utf8).Some?
    ensures s != [] && Field(s[1..]).Some?
    ensures var city := Field(s[1..]).value.1;
            && Field(city).Some? && Field(Field(city).value.1).Some?
            && |Field(Field(city).value.1).value.1| >= if HasMetro(edition, s[0]) then 9 else 6
  {
    hide Field, Utf8, Present, Degrees, Le;
  }

  lemma SplitField(s: seq<byte>) returns (text: seq<byte>, rest: seq<byte>)
    requires Field(s).Some?
    ensures Field(s) == Some((text, rest)) && 0 !in text && s == text + [0] + rest
  {
    text, rest := Field(s).value.0, Field(s).value.1;
    FieldText(s);
    hide Field;
    assert s == s[..|text|] + [s[|text|]] + s[|text| + 1..];
  }

  lemma SplitTail(s: seq<byte>, edition: int, strings: Entry) returns (r: Entry, rest: seq<byte>)
    requires |s| >= if HasMetro(edition, strings.country) then 9 else 6
    requires 0 !in strings.region && 0 !in strings.city && 0 !in strings.postalCode
    ensures Storable(r) && s == Tail(r, edition) + rest
    ensures r.country == strings.country && r.region == strings.region && r.city == strings.city
    ensures r.postalCode == strings.postalCode
  {
    hide Le, Le3;
    r := strings.(latitude := Le(s[0..3]), longitude := Le(s[3..6]), metro := 0, area := 0);
    ThreeBytes(s[0..3]);
    ThreeBytes(s[3..6]);
    if HasMetro(edition, strings.country) {
      ThreeBytes(s[6..9]);
      r, rest := r.(metro := Le(s[6..9]) / 1000, area := Le(s[6..9]) % 1000), s[9..];
      assert s == s[0..3] + s[3..6] + s[6..9] + s[9..];
    } else {
      rest := s[6..];
      assert s == s[0..3] + s[3..6] + [] + s[6..];
    }
  }

  lemma ThreeBytes(s: seq<byte>)
    requires |s| == 3
    ensures Le(s) < 0x100_0000 && Le3(Le(s)) == s
  {
    Le3Value(s);
    Le3RoundTrip(Le(s), s);
  }

  // ------------------------------------------------------------ finding a record

  /** `seek + (2 * record_length - 1) * segment` in unsigned arithmetic, kept in an int. */
  function RecordPointer(seek: nat, recordLength: nat, segment: nat): int
    requires recordLength >= 1
  {
    var sum := (seek + (2 * recordLength - 1) * segment) % 0x1_0000_0000;
    if sum < 0x8000_0000 then sum else sum - 0x1_0000_0000
  }

  /** A leaf value points behind the index, at its distance from the segment value, exactly when
      the sum fits an int. */
  lemma PointerBehindIndex(seek: nat, recordLength: nat, segment: nat)
    requires recordLength >= 1 && segment <= seek
    ensures var p := RecordPointer(seek, recordLength, segment);
            && (p == 2 * recordLength * segment + (seek - segment) <==>
                  seek + (2 * recordLength - 1) * segment < 0x8000_0000)
            && (seek + (2 * recordLength - 1) * segment < 0x8000_0000 ==> p >= 2 * recordLength * segment)
            && -0x8000_0000 <= p < 0x8000_0000
            && (p - (seek + (2 * recordLength - 1) * segment)) % 0x1_0000_0000 == 0
  {
    var sum := seek + (2 * recordLength - 1) * segment;
    assert (2 * recordLength - 1) * segment == 2 * recordLength * segment - segment;
    if sum < 0x8000_0000 {
      DivModUnique(sum, 0x1_0000_0000, 0, sum);
    }
    SameRemainder(sum);
  }

  lemma SameRemainder(sum: nat)
    ensures (sum % 0x1_0000_0000 - sum) % 0x1_0000_0000 == 0
    ensures (sum % 0x1_0000_0000 - 0x1_0000_0000 - sum) % 0x1_0000_0000 == 0
  {
  }

  /** Three-byte pointers always fit; four-byte ones need not. */
  lemma PointerFits(seek: nat, segment: nat)
    requires segment < 0x100_0000 && seek < 0x100_0000
    ensures seek + (2 * 3 - 1) * segment < 0x8000_0000
    ensures RecordPointer(0x7FFF_FFFF, 4, 0xFF_FFFE) != 2 * 4 * 0xFF_FFFE + (0x7FFF_FFFF - 0xFF_FFFE)
  {
  }

  /** Data pointers stay out of the index exactly for lookups that hit: callers do not tell the 0
      of a failed walk from a leaf, and it leads back into the index. */
  lemma PointerOfAnswer(g: Grid, ip: nat, width: nat)
    requires g.Shaped() && g.segment >= 1
    requires ValueOf(Lookup(g, ip, width)) + (2 * g.recordLength - 1) * g.segment < 0x8000_0000
    ensures RecordPointer(ValueOf(Lookup(g, ip, width)), g.recordLength, g.segment) >= 2 * g.recordLength * g.segment
            <==> Lookup(g, ip, width).Hit?
  {
    HitRange(g, 0, ip, width);
    var a := Lookup(g, ip, width);
    hide Lookup, RecordPointer;
    PointerPlain(ValueOf(a), g.recordLength, g.segment);
    assert (2 * g.recordLength - 1) * g.segment == 2 * g.recordLength * g.segment - g.segment;
  }

  datatype Extraction = NoRecord | CutShort | Extracted(view: View, length: nat)

  /** What _extract_record makes of a record number. `garbage` is what malloc left in the buffer;
      CutShort stands for reading past a buffer, which the C code does not guard against. */
  function Extract(h: Handle, utf8: bool, seek: nat, garbage: seq<byte>): Extraction
    requires h.segment.Some? && h.recordLength >= 1 && |garbage| == FULL_RECORD_LENGTH
  {
    var p := RecordPointer(seek, h.recordLength, h.segment.value);
    if seek == h.segment.value then NoRecord
    else if h.cache.None? then
      var r := Pread(h.database, FULL_RECORD_LENGTH, p);
      if r.None? || r.value == [] then NoRecord
      else Result(r.value + garbage[|r.value|..], h.edition, utf8)
    else if h.size <= p then NoRecord
    else if p < 0 || p > |h.cache.value| then CutShort
    else Result(h.cache.value[p..], h.edition, utf8)
  }

  function Result(s: seq<byte>, edition: int, utf8: bool): Extraction {
    var r := Parse(s, edition, utf8);
    if r.None? then CutShort else Extracted(r.value.0, |s| - |r.value.1|)
  }

  /** No record at the segment value itself, nor for a pointer outside the file, in any mode and
      for every buffer content. */
  lemma NoRecordThere(h: Handle, utf8: bool, seek: nat, garbage: seq<byte>)
    requires h.segment.Some? && h.recordLength >= 1 && |garbage| == 50 && h.size == |h.database|
    requires h.cache.Some? ==> h.cache.value == h.database
    ensures seek == h.segment.value ==> Extract(h, utf8, seek, garbage) == NoRecord
    ensures RecordPointer(seek, h.recordLength, h.segment.value) >= |h.database| ==>
              Extract(h, utf8, seek, garbage) == NoRecord
    ensures h.cache.None? && RecordPointer(seek, h.recordLength, h.segment.value) < 0 ==>
              Extract(h, utf8, seek, garbage) == NoRecord
  {
    hide RecordPointer;
  }

  // ------------------------------------------------------------ _extract_record

  /** A strlen loop of the parser. */
  method StrLen(buf: seq<byte>, at: nat) returns (n: nat)
    requires at <= |buf| && Field(buf[at..]).Some?
    ensures at + n < |buf|
    ensures Field(buf[at..]) == Some((buf[at..at + n], buf[at + n + 1..]))
  {
    ghost var s := buf[at..];
    ghost var t := Field(s).value.0;
    FieldText(s);
    hide Field;
    n := 0;
    while buf[at + n] != 0
      invariant 0 <= n <= |t|
      decreases |t| - n
    {
      assert buf[at + n] == s[n];
      n := n + 1;
    }
    assert buf[at + n] == s[n] && s[..n] == buf[at..at + n] && s[n + 1..] == buf[at + n + 1..];
  }

  lemma FieldIsCString(s: seq<byte>)
    requires Field(s).Some?
    ensures StrEnd(s, 0) == |Field(s).value.0| < |s| && s[..StrEnd(s, 0)] == Field(s).value.0
  {
    FieldText(s);
  }

  lemma {:induction false} FieldText(s: seq<byte>)
    requires Field(s).Some?
    ensures var t := Field(s).value.0;
            && |t| < |s| && s[..|t|] == t && s[|t|] == 0 && s[|t| + 1..] == Field(s).value.1
            && forall k | 0 <= k < |t| :: s[k] != 0
  {
    if s[0] != 0 {
      FieldText(s[1..]);
      var u := Field(s[1..]).value.0;
      assert s == [s[0]] + s[1..];
      assert Field(s).value.0 == [s[0]] + u;
    }
  }

  /** The first half of the parser: country and strings. */
  method FillStrings(record: GeoIPRecord, buf: seq<byte>, start: nat, edition: int) returns (at: nat)
    requires start <= |buf| && Parse(buf[start..], edition, record.utf8).Some?
    requires record.region.None? && record.city.None? && record.postalCode.None?
    modifies record`country, record`region, record`city, record`postalCode
    ensures start <= at <= |buf|
    ensures Parse(buf[start..], edition, record.utf8) ==
            ParseTail(buf[at..], edition, record.country, record.region, record.city, record.postalCode)
  {
    hide Field, Utf8, ParseTail;
    at := start;
    assert buf[start..][0] == buf[at] && buf[start..][1..] == buf[at + 1..];
    record.country := buf[at];
    at := at + 1;

    var length := StrLen(buf, at);
    if length > 0 {
      record.region := Some(buf[at..at + length]);
    }
    at := at + length + 1;

    length := StrLen(buf, at);
    Utf8Empty(buf[at..at + length]);
    if length > 0 {
      if record.utf8 {
        FieldIsCString(buf[at..]);
        var converted := Iso88591ToUtf8(buf[at..]);
        record.city := Some(converted[..converted.Length - 1]);
      } else {
        record.city := Some(buf[at..at + length]);
      }
    }
    at := at + length + 1;

    length := StrLen(buf, at);
    if length > 0 {
      record.postalCode := Some(buf[at..at + length]);
    }
    at := at + length + 1;
  }

  /** The second half: coordinates and codes. The pointer is left on the last three bytes. */
  method FillNumbers(record: GeoIPRecord, buf: seq<byte>, start: nat, edition: int) returns (at: nat)
    requires start <= |buf| && record.metroCode == record.areaCode == 0
    requires ParseTail(buf[start..], edition, record.country, record.region, record.city, record.postalCode).Some?
    modifies record`latitude, record`longitude, record`metroCode, record`areaCode
    ensures start <= at <= |buf| - 3
    ensures ParseTail(buf[start..], edition, record.country, record.region, record.city, record.postalCode) ==
            Some((record.Fields(), buf[at + 3..]))
  {
    hide Le;
    ghost var tail := buf[start..];
    at := start;
    assert tail[0..3] == buf[start..start + 3] && tail[3..6] == buf[start + 3..start + 6];
    var latitude := SumBytes(buf[at..at + 3]);
    record.latitude := latitude as real / 10000.0 - 180.0;
    at := at + 3;
    var longitude := SumBytes(buf[at..at + 3]);
    record.longitude := longitude as real / 10000.0 - 180.0;
    if edition == CITY_EDITION_REV1 {
      if record.country == US {
        at := at + 3;
        assert tail[6..9] == buf[at..at + 3];
        var combo := SumBytes(buf[at..at + 3]);
        record.metroCode := combo / 1000;
        record.areaCode := combo % 1000;
      }
    }
    assert tail[at + 3 - start..] == buf[at + 3..];
  }

  lemma Utf8Empty(s: seq<byte>)
    ensures Utf8(s) == [] <==> s == []
  {
    Utf8Length(s);
  }

  /** What _extract_record needs: a pointer into its buffer, and a record that ends inside it. */
  predicate Extractable(h: Handle, utf8: bool, seek: nat, garbage: seq<byte>) {
    && h.segment.Some? && h.recordLength >= 1 && |garbage| == FULL_RECORD_LENGTH
    && (h.cache.Some? ==> h.size == |h.cache.value|)
    && !Extract(h, utf8, seek, garbage).CutShort?
  }

  /** _extract_record: `next` is what it stores through next_record_ptr in disk mode, where that
      pointer is used. `garbage` is the content of the freshly allocated read buffer. */
  method ExtractRecord(gi: GeoIP, seek: nat, garbage: seq<byte>)
    returns (record: GeoIPRecord?, next: nat)
    requires Extractable(gi.View(), gi.utf8, seek, garbage)
    ensures var e := Extract(gi.View(), gi.utf8, seek, garbage);
            && (record == null <==> e.NoRecord?)
            && (record != null ==> fresh(record) && record.Fields() == e.view && record.utf8 == gi.utf8)
            && (gi.cache.None? ==> next == seek + if e.NoRecord? then 0 else e.length)
    ensures seek == gi.databaseSegments.value ==> record == null && next == seek
  {
    ghost var h := gi.View();
    next := seek;
    if seek == gi.databaseSegments.value {
      return null, next;
    }
    record := new GeoIPRecord();
    record.utf8 := gi.utf8;
    var pointer := RecordPointer(seek, gi.recordLength, gi.databaseSegments.value);
    var buf: seq<byte>;
    var start: nat := 0;
    if gi.cache == None {
      var bytesRead := Pread(gi.database, FULL_RECORD_LENGTH, pointer);
      if bytesRead == None || bytesRead.value == [] {
        return null, next;
      }
      buf := bytesRead.value + garbage[|bytesRead.value|..];
      assert buf[0..] == buf;
    } else {
      if gi.size <= pointer {
        return null, next;
      }
      buf := gi.cache.value;
      start := pointer;
    }
    hide RecordPointer, Parse, ParseTail;
    var at := FillStrings(record, buf, start, gi.databaseType);
    at := FillNumbers(record, buf, at, gi.databaseType);
    if gi.cache == None {
      next := seek + at + 3;
    }
  }

  /** GeoIP_init_record_iter */
  function InitRecordIter(segment: nat): nat { segment + 1 }

  /** GeoIP_next_record: 1 reports the unsupported memory cache mode. */
  method NextRecord(gi: GeoIP, iter: nat, garbage: seq<byte>)
    returns (status: int, gir: GeoIPRecord?, next: nat)
    requires gi.cache.None? ==> Extractable(gi.View(), gi.utf8, iter, garbage)
    ensures status == 1 <==> gi.cache.Some?
    ensures status == 1 ==> next == iter
    ensures status != 1 ==>
              var e := Extract(gi.View(), gi.utf8, iter, garbage);
              && status == 0
              && (gir == null <==> e.NoRecord?)
              && (gir != null ==> fresh(gir) && gir.Fields() == e.view)
              && next == iter + if e.NoRecord? then 0 else e.length
    ensures status != 1 && iter == gi.databaseSegments.value ==> gir == null && next == iter
    ensures forall r: Entry | status != 1 && Storable(r) && StoredAt(gi.View(), iter, Encode(r, gi.databaseType)) ::
              |Encode(r, gi.databaseType)| <= 50 ==>
                && gir != null && gir.Fields() == Shown(r, gi.databaseType, gi.utf8)
                && next == iter + |Encode(r, gi.databaseType)|
  {
    hide Encode, Shown, StoredAt, Storable, Extract;
    if gi.cache.None? {
      ExtractAllStored(gi.View(), gi.utf8, iter, garbage);
    }
    if gi.cache != None {
      return 1, null, iter;
    }
    status := 0;
    gir, next := ExtractRecord(gi, iter, garbage);
  }

  // ------------------------------------------------------------ records in a file

  /** The record numbered `seek` is stored where its pointer leads, before the 2 GiB an int reaches. */
  predicate StoredAt(h: Handle, seek: nat, bytes: seq<byte>) {
    && h.segment.Some? && h.recordLength >= 1 && h.segment.value < seek
    && var p := seek + (2 * h.recordLength - 1) * h.segment.value;
    && p + |bytes| < 0x8000_0000
    && p + |bytes| <= |h.database|
    && h.database[p..p + |bytes|] == bytes
  }

  /** Where that is: behind the index, at the distance of the number from the segment value. */
  lemma StoredBehindIndex(h: Handle, seek: nat, bytes: seq<byte>)
    requires h.segment.Some? && h.recordLength >= 1 && h.segment.value < seek
    ensures var at := 2 * h.recordLength * h.segment.value + (seek - h.segment.value);
            StoredAt(h, seek, bytes) <==>
            at + |bytes| < 0x8000_0000 && at + |bytes| <= |h.database| && h.database[at..at + |bytes|] == bytes
  {
    assert (2 * h.recordLength - 1) * h.segment.value == 2 * h.recordLength * h.segment.value - h.segment.value;
  }

  lemma DiskBuffer(file: seq<byte>, p: nat, e: seq<byte>, garbage: seq<byte>)
    requires p + |e| <= |file| && file[p..p + |e|] == e && 0 < |e| <= FULL_RECORD_LENGTH
    requires |garbage| == FULL_RECORD_LENGTH
    ensures var r := Pread(file, FULL_RECORD_LENGTH, p);
            && r.Some? && r.value != []
            && var s := r.value + garbage[|r.value|..];
            |s| == FULL_RECORD_LENGTH && s == e + s[|e|..]
  {
    var r := Pread(file, FULL_RECORD_LENGTH, p).value;
    assert r[..|e|] == e by {
      assert forall k | 0 <= k < |e| :: r[k] == file[p + k] == file[p..p + |e|][k];
    }
    var s := r + garbage[|r|..];
    assert s[..|e|] == r[..|e|];
  }

  /** Reading a stored record of at most fifty bytes from disk shows that record, whatever was
      left in the read buffer, and its encoded length is the step to the next one. */
  lemma ExtractFromDisk(h: Handle, utf8: bool, seek: nat, r: Entry, garbage: seq<byte>)
    requires Storable(r) && StoredAt(h, seek, Encode(r, h.edition))
    requires h.cache.None? && |garbage| == FULL_RECORD_LENGTH
    requires |Encode(r, h.edition)| <= FULL_RECORD_LENGTH
    ensures Extract(h, utf8, seek, garbage) == Extracted(Shown(r, h.edition, utf8), |Encode(r, h.edition)|)
  {
    var e := Encode(r, h.edition);
    var p := seek + (2 * h.recordLength - 1) * h.segment.value;
    PointerBehindIndex(seek, h.recordLength, h.segment.value);
    PointerPlain(seek, h.recordLength, h.segment.value);
    DiskBuffer(h.database, p, e, garbage);
    var b := Pread(h.database, FULL_RECORD_LENGTH, p).value;
    var s := b + garbage[|b|..];
    ParseEncoded(r, h.edition, utf8, s[|e|..]);
    hide Encode, Parse, Shown, RecordPointer, Pread;
  }

  lemma PointerPlain(seek: nat, recordLength: nat, segment: nat)
    requires recordLength >= 1
    requires seek + (2 * recordLength - 1) * segment < 0x8000_0000
    ensures RecordPointer(seek, recordLength, segment) == seek + (2 * recordLength - 1) * segment
  {
    var sum := seek + (2 * recordLength - 1) * segment;
    DivModUnique(sum, 0x1_0000_0000, 0, sum);
  }

  /** From memory any stored record is shown, however long. */
  lemma ExtractFromMemory(h: Handle, utf8: bool, seek: nat, r: Entry, garbage: seq<byte>)
    requires Storable(r) && StoredAt(h, seek, Encode(r, h.edition))
    requires h.cache == Some(h.database) && h.size == |h.database| && |garbage| == FULL_RECORD_LENGTH
    ensures Extract(h, utf8, seek, garbage) == Extracted(Shown(r, h.edition, utf8), |Encode(r, h.edition)|)
  {
    var e := Encode(r, h.edition);
    var p := seek + (2 * h.recordLength - 1) * h.segment.value;
    PointerPlain(seek, h.recordLength, h.segment.value);
    var s := h.database[p..];
    assert s == e + s[|e|..];
    ParseEncoded(r, h.edition, utf8, s[|e|..]);
    hide Encode, Parse, Shown, RecordPointer;
  }

  lemma ExtractStored(h: Handle, utf8: bool, seek: nat, r: Entry, garbage: seq<byte>)
    requires Storable(r) && StoredAt(h, seek, Encode(r, h.edition)) && |garbage| == FULL_RECORD_LENGTH
    ensures (h.cache.None? && |Encode(r, h.edition)| <= 50) || (h.cache == Some(h.database) && h.size == |h.database|)
            ==> Extract(h, utf8, seek, garbage) == Extracted(Shown(r, h.edition, utf8), |Encode(r, h.edition)|)
  {
    hide Encode, Shown, StoredAt, Extract, Storable;
    if h.cache.None? && |Encode(r, h.edition)| <= 50 {
      ExtractFromDisk(h, utf8, seek, r, garbage);
    }
    if h.cache == Some(h.database) && h.size == |h.database| {
      ExtractFromMemory(h, utf8, seek, r, garbage);
    }
  }

  lemma ExtractAllStored(h: Handle, utf8: bool, seek: nat, garbage: seq<byte>)
    requires h.segment.Some? && h.recordLength >= 1 && |garbage| == FULL_RECORD_LENGTH
    ensures forall r: Entry | Storable(r) && StoredAt(h, seek, Encode(r, h.edition)) ::
              (h.cache.None? && |Encode(r, h.edition)| <= 50) || (h.cache == Some(h.database) && h.size == |h.database|)
              ==> Extract(h, utf8, seek, garbage) == Extracted(Shown(r, h.edition, utf8), |Encode(r, h.edition)|)
  {
    hide Encode, Shown, StoredAt, Extract, Storable;
    forall r: Entry | Storable(r) && StoredAt(h, seek, Encode(r, h.edition))
      ensures (h.cache.None? && |Encode(r, h.edition)| <= 50) || (h.cache == Some(h.database) && h.size == |h.database|)
              ==> Extract(h, utf8, seek, garbage) == Extracted(Shown(r, h.edition, utf8), |Encode(r, h.edition)|)
    {
      ExtractStored(h, utf8, seek, r, garbage);
    }
  }

  /** Disk and memory mode show the same for a stored record, for whatever the read buffer held,
      exactly when the record is at most fifty bytes long. */
  lemma ModesAgree(h: Handle, utf8: bool, seek: nat, r: Entry)
    requires Storable(r) && StoredAt(h, seek, Encode(r, h.edition))
    requires h.cache.None? && h.size == |h.database|
    ensures |Encode(r, h.edition)| <= 50 <==>
            forall garbage: seq<byte> | |garbage| == 50 ::
              Extract(h, utf8, seek, garbage) == Extract(h.(cache := Some(h.database)), utf8, seek, garbage)
  {
    var m := h.(cache := Some(h.database));
    forall garbage: seq<byte> | |garbage| == FULL_RECORD_LENGTH
      ensures Extract(h, utf8, seek, garbage) == Extract(m, utf8, seek, garbage) <==>
              |Encode(r, h.edition)| <= FULL_RECORD_LENGTH
    {
      ExtractFromMemory(m, utf8, seek, r, garbage);
      DiskLength(h, utf8, seek, garbage);
      if |Encode(r, h.edition)| <= FULL_RECORD_LENGTH {
        ExtractFromDisk(h, utf8, seek, r, garbage);
      }
      hide Encode, Extract, Shown, StoredAt;
    }
    hide Encode, Extract, StoredAt;
    var zeros := seq(FULL_RECORD_LENGTH, _ => 0 as byte);
    assert |zeros| == FULL_RECORD_LENGTH;
  }

  /** A disk read never shows more than the fifty bytes it fetched. */
  lemma DiskLength(h: Handle, utf8: bool, seek: nat, garbage: seq<byte>)
    requires h.segment.Some? && h.recordLength >= 1 && h.cache.None? && |garbage| == FULL_RECORD_LENGTH
    ensures var e := Extract(h, utf8, seek, garbage); e.Extracted? ==> e.length <= FULL_RECORD_LENGTH
  {
    hide Parse, RecordPointer;
  }

  // ------------------------------------------------------------ iteration

  function EncodeAll(rs: seq<Entry>, edition: int): seq<byte>
    requires forall k | 0 <= k < |rs| :: Storable(rs[k])
  {
    if rs == [] then [] else Encode(rs[0], edition) + EncodeAll(rs[1..], edition)
  }

  function ShownAll(rs: seq<Entry>, edition: int, utf8: bool): (r: seq<View>)
    ensures |r| == |rs| && forall k | 0 <= k < |rs| :: r[k] == Shown(rs[k], edition, utf8)
  {
    if rs == [] then [] else [Shown(rs[0], edition, utf8)] + ShownAll(rs[1..], edition, utf8)
  }

  /** As many calls of GeoIP_next_record as there are read buffers: what they show and where the
      iterator ends; None when a call shows nothing. */
  function Iterate(h: Handle, utf8: bool, iter: nat, garbage: seq<seq<byte>>): Option<(seq<View>, nat)>
    requires h.segment.Some? && h.recordLength >= 1
    requires forall k | 0 <= k < |garbage| :: |garbage[k]| == FULL_RECORD_LENGTH
    decreases |garbage|
  {
    if garbage == [] then Some(([], iter))
    else match Extract(h, utf8, iter, garbage[0])
      case Extracted(v, n) =>
        var rest := Iterate(h, utf8, iter + n, garbage[1..]);
        if rest.None? then None else Some(([v] + rest.value.0, rest.value.1))
      case _ => None
  }

  predicate Short(rs: seq<Entry>, edition: int) {
    forall k | 0 <= k < |rs| :: Storable(rs[k]) && |Encode(rs[k], edition)| <= FULL_RECORD_LENGTH
  }

  lemma {:induction false} IterateShows(h: Handle, utf8: bool, iter: nat, rs: seq<Entry>, garbage: seq<seq<byte>>)
    requires Short(rs, h.edition) && StoredAt(h, iter, EncodeAll(rs, h.edition)) && h.cache.None?
    requires |garbage| == |rs| && forall k | 0 <= k < |garbage| :: |garbage[k]| == FULL_RECORD_LENGTH
    ensures Iterate(h, utf8, iter, garbage) ==
            Some((ShownAll(rs, h.edition, utf8), iter + |EncodeAll(rs, h.edition)|))
    decreases |rs|
  {
    hide Encode, Shown, StoredAt, Extract, Storable;
    if rs != [] {
      var e, more := Encode(rs[0], h.edition), EncodeAll(rs[1..], h.edition);
      StoredSplits(h, iter, e, more);
      ExtractFromDisk(h, utf8, iter, rs[0], garbage[0]);
      IterateShows(h, utf8, iter + |e|, rs[1..], garbage[1..]);
    }
  }

  lemma StoredSplits(h: Handle, seek: nat, a: seq<byte>, b: seq<byte>)
    requires StoredAt(h, seek, a + b)
    ensures StoredAt(h, seek, a) && StoredAt(h, seek + |a|, b)
  {
    var p := seek + (2 * h.recordLength - 1) * h.segment.value;
    SubSlice(h.database, p, |a + b|, 0, |a|);
    SubSlice(h.database, p, |a + b|, |a|, |a + b|);
    assert (a + b)[0..|a|] == a && (a + b)[|a|..|a + b|] == b;
  }

  lemma {:induction false} EncodeAllSplits(rs: seq<Entry>, k: nat, edition: int)
    requires k <= |rs| && forall i | 0 <= i < |rs| :: Storable(rs[i])
    ensures EncodeAll(rs, edition) == EncodeAll(rs[..k], edition) + EncodeAll(rs[k..], edition)
    decreases k
  {
    hide Encode, Storable;
    if k == 0 {
      assert rs[..0] == [] && rs[0..] == rs;
    } else {
      assert rs[1..][..k - 1] == rs[..k][1..] && rs[1..][k - 1..] == rs[k..] && rs[..k][0] == rs[0];
      EncodeAllSplits(rs[1..], k - 1, edition);
      Associate(Encode(rs[0], edition), EncodeAll(rs[..k][1..], edition), EncodeAll(rs[k..], edition));
    }
  }

  /** From the first record behind the index, k calls show exactly the first k records in order,
      and the iterator has moved by the sum of their encoded lengths. */
  lemma FirstRecords(h: Handle, utf8: bool, rs: seq<Entry>, k: nat, garbage: seq<seq<byte>>)
    requires h.cache.None? && h.segment.Some? && Short(rs, h.edition)
    requires StoredAt(h, InitRecordIter(h.segment.value), EncodeAll(rs, h.edition))
    requires |garbage| == k <= |rs| && forall i | 0 <= i < k :: |garbage[i]| == FULL_RECORD_LENGTH
    ensures Iterate(h, utf8, InitRecordIter(h.segment.value), garbage) ==
            Some((ShownAll(rs, h.edition, utf8)[..k],
                  InitRecordIter(h.segment.value) + |EncodeAll(rs[..k], h.edition)|))
  {
    hide Encode, EncodeAll, StoredAt, Iterate, ShownAll, Shown, Storable, InitRecordIter;
    var iter := InitRecordIter(h.segment.value);
    EncodeAllSplits(rs, k, h.edition);
    StoredSplits(h, iter, EncodeAll(rs[..k], h.edition), EncodeAll(rs[k..], h.edition));
    IterateShows(h, utf8, iter, rs[..k], garbage);
    assert ShownAll(rs[..k], h.edition, utf8) == ShownAll(rs, h.edition, utf8)[..k];
  }

  /** The records start one byte behind the index. */
  lemma FirstRecordPlace(index: seq<byte>, h: Handle, records: seq<byte>, rest: seq<byte>)
    requires h.segment.Some? && h.recordLength >= 1 && |index| == 2 * h.recordLength * h.segment.value
    requires h.database == index + [0] + records + rest && |index| + 1 + |records| < 0x8000_0000
    ensures StoredAt(h, InitRecordIter(h.segment.value), records)
  {
    var seek := InitRecordIter(h.segment.value);
    var p := seek + (2 * h.recordLength - 1) * h.segment.value;
    assert (2 * h.recordLength - 1) * h.segment.value == |index| - h.segment.value;
    assert h.database[p..p + |records|] == records;
  }
}
