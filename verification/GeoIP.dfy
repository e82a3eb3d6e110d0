/** The database handle: opening, reloading on a changed file, and looking addresses up. */
module GeoIPDatabase {
  import opened Bytes
  import opened Footer

  /** One version of the database file. */
  datatype FileVersion = FileVersion(bytes: seq<byte>, mtime: int)

  /** The option bits that matter here. */
  datatype Flags = Flags(memoryCache: bool, checkCache: bool, indexCache: bool, mmapCache: bool)

  /** The value of a handle's fields that describe the file. */
  datatype Handle = Handle(
    database: seq<byte>,
    cache: Option<seq<byte>>,
    indexCache: Option<seq<byte>>,
    segment: Option<nat>,
    edition: int,
    mtime: int,
    flags: Flags,
    size: nat,
    recordLength: nat,
    lastMtimeCheck: int)

  /** What the operating system shows: the time in seconds, and the file behind the path. */
  class System {
    var clock: int
    var file: Option<FileVersion>
  }

  /** The result slot a caller passes to a lookup. */
  class GeoIPLookup {
    var netmask: int

    constructor () {}
  }

  class GeoIP {
    var database: seq<byte>
    var cache: Option<seq<byte>>
    var indexCache: Option<seq<byte>>
    var databaseSegments: Option<nat>
    var databaseType: int
    var mtime: int
    var flags: Flags
    var size: nat
    var recordLength: nat
    var lastMtimeCheck: int
    var utf8: bool
    var teredo: bool
    var netmask: int

    constructor (database: seq<byte>)
      ensures this.database == database && size == |database|
      ensures netmask == 0
    {
      this.database := database;
      this.size := |database|;
      cache, indexCache, databaseSegments := None, None, None;
      databaseType, mtime, recordLength, lastMtimeCheck, netmask := 0, 0, 0, 0, 0;
      flags := Flags(false, false, false, false);
      utf8, teredo := false, false;
    }

    function View(): Handle
      reads this
    {
      Handle(database, cache, indexCache, databaseSegments, databaseType, mtime, flags, size,
             recordLength, lastMtimeCheck)
    }
  }

  predicate Caches(flags: Flags) {
    flags.memoryCache || flags.mmapCache
  }

  /** The handle a fresh open of a file version yields; None when the open fails. */
  function Opened(v: FileVersion, flags: Flags): Option<Handle> {
    var f := StructureOf(v.bytes);
    if f.segment.None? then None
    else
      var index := IndexSize(f.edition, f.segment.value, f.recordLength, |v.bytes|);
      if index < 0 then None
      else Some(Handle(
                  v.bytes,
                  if Caches(flags) then Some(v.bytes) else None,
                  if flags.indexCache then Some(v.bytes[..index]) else None,
                  f.segment, f.edition,
                  if Caches(flags) || flags.checkCache then v.mtime else 0,
                  flags, |v.bytes|, f.recordLength, 0))
  }

  /** Every field of h describes the one file version v. */
  predicate Describes(h: Handle, v: FileVersion) {
    Opened(v, h.flags) == Some(h.(lastMtimeCheck := 0))
  }

  /** Whether a check at time `now` adopts what it finds behind the path. */
  predicate Adopts(h: Handle, now: int, file: Option<FileVersion>) {
    && h.flags.checkCache
    && now != h.lastMtimeCheck
    && file.Some?
    && file.value.mtime != h.mtime
    && file.value.mtime + 60 < now
  }

  /** Mapping a file fails when the file is empty. */
  predicate CannotMap(flags: Flags, v: FileVersion) {
    flags.mmapCache && v.bytes == []
  }

  /** The fields after a reload, also when it gives up half-way: on a file that cannot be mapped,
      before the structure is read, and on a corrupt one. */
  function Reloaded(h: Handle, v: FileVersion): Handle {
    var f := StructureOf(v.bytes);
    var index := if f.segment.Some? then IndexSize(f.edition, f.segment.value, f.recordLength, |v.bytes|) else -1;
    if CannotMap(h.flags, v) then h.(database := v.bytes, cache := None, mtime := v.mtime, size := |v.bytes|)
    else
      h.(database := v.bytes,
         cache := if Caches(h.flags) then Some(v.bytes) else h.cache,
         indexCache := if h.flags.indexCache && index >= 0 then Some(v.bytes[..index]) else h.indexCache,
         segment := f.segment,
         edition := f.edition,
         mtime := v.mtime,
         size := |v.bytes|,
         recordLength := f.recordLength)
  }

  function Checked(h: Handle, now: int, file: Option<FileVersion>): Handle {
    if !h.flags.checkCache then h
    else if Adopts(h, now, file) then Reloaded(h.(lastMtimeCheck := now), file.value)
    else h.(lastMtimeCheck := now)
  }

  /** Every field is what the bytes behind the descriptor make it. A file without a segment value
      has no index, so nothing may be held in an index cache for it. */
  predicate Agrees(h: Handle) {
    && StructureOf(h.database) == Structure(h.segment, h.edition, h.recordLength)
    && h.size == |h.database|
    && (h.cache.Some? ==> h.cache.value == h.database)
    && (h.indexCache.Some? ==>
          && h.segment.Some?
          && var index := IndexSize(h.edition, h.segment.value, h.recordLength, h.size);
          index >= 0 && h.indexCache.value == h.database[..index])
  }

  /** Fields that agree, on a file in which addresses can be looked up. */
  predicate Coherent(h: Handle) {
    Agrees(h) && h.segment.Some?
  }

  // ------------------------------------------------------------ open

  /** When an open succeeds, and what every field then is. */
  lemma OpenedMeans(v: FileVersion, flags: Flags)
    ensures var f := StructureOf(v.bytes);
            var o := Opened(v, flags);
            && (o.Some? <==>
                  f.segment.Some? && IndexSize(f.edition, f.segment.value, f.recordLength, |v.bytes|) >= 0)
            && (o.Some? ==>
                  var h := o.value;
                  && h.database == v.bytes && h.size == |v.bytes| && h.flags == flags
                  && h.segment == f.segment && h.edition == f.edition && h.recordLength == f.recordLength
                  && (h.cache == if flags.memoryCache || flags.mmapCache then Some(v.bytes) else None)
                  && (flags.memoryCache || flags.mmapCache || flags.checkCache ==> h.mtime == v.mtime)
                  && (!flags.memoryCache && !flags.mmapCache && !flags.checkCache ==> h.mtime == 0)
                  && (h.indexCache.Some? <==> flags.indexCache)
                  && (flags.indexCache ==>
                        h.indexCache.value ==
                        v.bytes[..IndexSize(f.edition, f.segment.value, f.recordLength, |v.bytes|)])
                  && h.lastMtimeCheck == 0)
  {
    hide StructureOf, IndexSize;
  }

  /** A file of an edition without records opens whatever comes before its footer, with the segment
      value of that edition, and its index is the whole file. */
  lemma ConstantEditionsOpen(prefix: seq<byte>, t: byte, mtime: int, flags: Flags)
    requires t in {1, 3, 7, 8, 10, 12, 17, 18}
    ensures var bytes := prefix + [255, 255, 255, t];
            var o := Opened(FileVersion(bytes, mtime), flags);
            && o.Some?
            && o.value.database == bytes
            && o.value.edition == t as int
            && o.value.recordLength == 3
            && o.value.segment == Some(if t == 3 then 16000000 else if t == 7 then 16700000
                                       else if t >= 17 then 16515072 else 16776960)
            && o.value.indexCache == (if flags.indexCache then Some(bytes) else None)
            && o.value.cache == (if flags.memoryCache || flags.mmapCache then Some(bytes) else None)
  {
    var bytes := prefix + [255, 255, 255, t];
    var v := FileVersion(bytes, mtime);
    EditionTable(prefix, t, []);
    assert bytes + [] == bytes && bytes[..|bytes|] == bytes;
    OpenedMeans(v, flags);
    var f := StructureOf(bytes);
    hide StructureOf, Opened;
    IndexTable(f.edition, f.segment.value, 3, |bytes|);
    hide IndexSize;
  }

  // ------------------------------------------------------------ reload

  lemma DescribesIsCoherent(h: Handle, v: FileVersion)
    requires Describes(h, v)
    ensures Coherent(h) && h.database == v.bytes && CachesAsked(h)
  {
  }

  /** A handle holds a cache only if its flags ask for it. */
  predicate CachesAsked(h: Handle) {
    (h.cache.Some? ==> Caches(h.flags)) && (h.indexCache.Some? ==> h.flags.indexCache)
  }

  /** A reload leaves exactly the handle a fresh open of the new version would, if and only if
      that open would succeed; and a handle that gave up on a corrupt version is as good as any other
      when it finds the next. */
  lemma ReloadIsReopen(h: Handle, now: int, v: FileVersion)
    requires CachesAsked(h) && Adopts(h, now, Some(v))
    ensures var r := Checked(h, now, Some(v));
            && r.(lastMtimeCheck := 0) ==
               (if Opened(v, h.flags).Some? then Opened(v, h.flags).value else Reloaded(h, v).(lastMtimeCheck := 0))
            && (Describes(r, v) <==> Opened(v, h.flags).Some?)
            && r.lastMtimeCheck == now && r.mtime == v.mtime && r.flags == h.flags && CachesAsked(r)
  {
    EmptyIsRejected(v, h.flags);
    hide StructureOf, IndexSize;
  }

  lemma EmptyIsRejected(v: FileVersion, flags: Flags)
    ensures v.bytes == [] ==> Opened(v, flags).None? && StructureOf(v.bytes).segment.None?
  {
    if v.bytes == [] {
      NoMarkerMeansCountry(v.bytes);
    }
    hide StructureOf;
  }

  /** After a reload of a file that can be mapped, if it has to be, every field but the index cache
      is that of the new file. The index cache disagrees exactly when one is in use and the new footer
      is unreadable or its index does not fit; it then still holds the index of the old file. Apart from
      that, an unreadable footer leaves no segment value. */
  lemma ReloadAgrees(h: Handle, old_v: FileVersion, now: int, v: FileVersion)
    requires Describes(h, old_v) && Adopts(h, now, Some(v)) && !(h.flags.mmapCache && v.bytes == [])
    ensures var r := Checked(h, now, Some(v));
            var f := StructureOf(v.bytes);
            var fits := f.segment.Some? && IndexSize(f.edition, f.segment.value, f.recordLength, |v.bytes|) >= 0;
            && r.database == v.bytes && r.mtime == v.mtime
            && (r.cache == if h.flags.memoryCache || h.flags.mmapCache then Some(v.bytes) else None)
            && Agrees(r.(indexCache := None))
            && (Agrees(r) <==> !h.flags.indexCache || fits)
            && (!Agrees(r) ==> r.indexCache == h.indexCache && h.indexCache.Some? &&
                               h.indexCache.value <= old_v.bytes)
            && (r.segment.Some? <==> f.segment.Some?)
  {
    hide StructureOf, IndexSize;
  }

  /** An empty file that should be mapped leaves the old segment value, edition and index cache with
      the new size; `ShortFileMisses` shows that no lookup comes to use them. */
  lemma EmptyMapping(h: Handle, old_v: FileVersion, now: int, v: FileVersion)
    requires Describes(h, old_v) && Adopts(h, now, Some(v)) && h.flags.mmapCache && v.bytes == []
    ensures var r := Checked(h, now, Some(v));
            && !Agrees(r) && r.size == 0 && r.database == [] && r.cache == None
            && r.segment == h.segment && r.segment.Some? && r.indexCache == h.indexCache
  {
    EmptyIsRejected(v, h.flags);
    hide StructureOf, IndexSize;
  }

  /** An old Country Edition file: 23 zero bytes. */
  const OLD_VERSION := FileVersion(seq(23, _ => 0), 0)

  /** A footer alone, of a City Edition whose index would be 600 bytes long. */
  const MISFIT_VERSION := FileVersion(FooterBytes(CITY_EDITION_REV1, 100), 1)

  const INDEX_AND_CHECK := Flags(false, true, true, false)

  /** Two reloads with an index cache in use, to an empty file and to one whose index does not fit:
      both leave the 23 bytes of the old file as the index of the new one, and the second has a
      segment value, so that lookups go on with them. */
  lemma ReloadDisagrees()
    ensures Opened(OLD_VERSION, INDEX_AND_CHECK).Some?
    ensures var h := Opened(OLD_VERSION, INDEX_AND_CHECK).value;
            var empty := Checked(h, 100, Some(FileVersion([], 1)));
            var misfit := Checked(h, 100, Some(MISFIT_VERSION));
            && !Agrees(empty) && empty.size == 0 && empty.segment == None
            && !Agrees(misfit) && misfit.size == 7 && misfit.segment == Some(100)
            && empty.indexCache == misfit.indexCache == Some(OLD_VERSION.bytes)
  {
    OldOpens();
    var h := Opened(OLD_VERSION, INDEX_AND_CHECK).value;
    NoMarkerMeansCountry([]);
    FooterRoundTrip([], CITY_EDITION_REV1, 100);
    assert [] + FooterBytes(CITY_EDITION_REV1, 100) == MISFIT_VERSION.bytes;
    hide StructureOf, Opened, Describes, Checked, Agrees;
    StaleIndex(h, FileVersion([], 1));
    StaleIndex(h, MISFIT_VERSION);
  }

  lemma StaleIndex(h: Handle, v: FileVersion)
    requires Describes(h, OLD_VERSION) && h.flags == INDEX_AND_CHECK && h.mtime == 0 && h.lastMtimeCheck == 0
    requires v.mtime == 1
    requires var f := StructureOf(v.bytes);
             f.segment.Some? ==> IndexSize(f.edition, f.segment.value, f.recordLength, |v.bytes|) < 0
    ensures var r := Checked(h, 100, Some(v));
            && !Agrees(r) && r.size == |v.bytes| && r.segment == StructureOf(v.bytes).segment
            && r.indexCache == h.indexCache
  {
    ReloadAgrees(h, OLD_VERSION, 100, v);
    hide StructureOf, Opened, IndexSize;
  }

  lemma OldOpens()
    ensures Opened(OLD_VERSION, INDEX_AND_CHECK).Some?
    ensures var h := Opened(OLD_VERSION, INDEX_AND_CHECK).value;
            && Describes(h, OLD_VERSION) && h.flags == INDEX_AND_CHECK && h.mtime == 0 && h.lastMtimeCheck == 0
            && h.indexCache == Some(OLD_VERSION.bytes)
  {
    NoMarkerMeansCountry(OLD_VERSION.bytes);
    assert OLD_VERSION.bytes[..23] == OLD_VERSION.bytes;
    hide StructureOf;
  }

  // ------------------------------------------------------------ the C functions

  method GetIndexSize(gi: GeoIP, fileSize: nat) returns (indexSize: int)
    requires gi.databaseSegments.Some?
    ensures Delimits(indexSize, gi.databaseType, gi.databaseSegments.value, gi.recordLength, fileSize)
    ensures indexSize == IndexSize(gi.databaseType, gi.databaseSegments.value, gi.recordLength, fileSize)
  {
    IndexSizeDelimits(IndexSize(gi.databaseType, gi.databaseSegments.value, gi.recordLength, fileSize),
                      gi.databaseType, gi.databaseSegments.value, gi.recordLength, fileSize);
    hide Delimits;
    if !HasContent(gi.databaseType) {
      return fileSize;
    }
    var segment := gi.databaseSegments.value;
    indexSize := segment * gi.recordLength * 2;
    if indexSize > fileSize {
      return -1;
    }
  }

  /** What the scan leaves: the structure, but for the constants of the Country Editions. */
  predicate SegmentSoFar(h: Handle) {
    && (h.segment.Some? ==> !CountryLike(h.edition) && !LargeCountryLike(h.edition))
    && StructureOf(h.database) ==
       (if h.segment.Some? then Structure(h.segment, h.edition, h.recordLength) else FixedSegment(h.edition))
    && (h.segment.None? ==>
          h.recordLength == STANDARD_RECORD_LENGTH
          && h.edition != REGION_EDITION_REV0 && h.edition != REGION_EDITION_REV1)
  }

  /** What a complete read behind a marker at p establishes. */
  lemma StructureRead(h: Handle, p: nat)
    requires FindMarker(h.database, |h.database| - 3, STRUCTURE_INFO_MAX_SIZE) == Found(p)
    requires p + 4 <= |h.database| && h.edition == EditionOf(h.database[p + 3])
    requires TwoSegments(h.edition) ==>
               && p + 7 <= |h.database| && h.segment == Some(Le(h.database[p + 4..p + 7]))
               && h.recordLength == if OrgLike(h.edition) then ORG_RECORD_LENGTH else STANDARD_RECORD_LENGTH
    requires !TwoSegments(h.edition) ==>
               && h.recordLength == STANDARD_RECORD_LENGTH
               && h.segment == if h.edition == REGION_EDITION_REV0 then Some(STATE_BEGIN_REV0)
                               else if h.edition == REGION_EDITION_REV1 then Some(STATE_BEGIN_REV1)
                               else None
    ensures SegmentSoFar(h)
  {
    EditionsDisjoint(h.edition);
    hide FindMarker, TwoSegments, OrgLike, CountryLike, LargeCountryLike, EditionOf;
  }

  lemma StructureCut(bytes: seq<byte>, p: nat)
    requires FindMarker(bytes, |bytes| - 3, STRUCTURE_INFO_MAX_SIZE) == Found(p)
    ensures p + 4 > |bytes| ==> StructureOf(bytes) == Structure(None, COUNTRY_EDITION, STANDARD_RECORD_LENGTH)
    ensures p + 4 <= |bytes| < p + 7 && TwoSegments(EditionOf(bytes[p + 3])) ==>
              StructureOf(bytes) == Structure(None, EditionOf(bytes[p + 3]), STANDARD_RECORD_LENGTH)
  {
    hide FindMarker, TwoSegments, EditionOf;
  }

  lemma NoRegion(t: int)
    ensures t == REGION_EDITION_REV0 || t == REGION_EDITION_REV1 ==> !TwoSegments(t)
  {
    EditionsDisjoint(t);
  }

  /** The body of the scan behind a marker; not complete when a read falls short. */
  method ReadStructure(gi: GeoIP, at: nat) returns (complete: bool)
    requires at >= 3 && FindMarker(gi.database, |gi.database| - 3, STRUCTURE_INFO_MAX_SIZE) == Found(at - 3)
    requires gi.databaseSegments == None && gi.databaseType == COUNTRY_EDITION
    requires gi.recordLength == STANDARD_RECORD_LENGTH
    modifies gi`databaseSegments, gi`databaseType, gi`recordLength
    ensures complete ==> SegmentSoFar(gi.View())
    ensures !complete ==>
              Structure(gi.databaseSegments, gi.databaseType, gi.recordLength) == StructureOf(gi.database)
  {
    StructureCut(gi.database, at - 3);
    hide SegmentSoFar, StructureOf, FindMarker, TwoSegments, OrgLike;
    var fno, offset := gi.database, at;
    var edition := Pread(fno, 1, offset);
    if edition.None? || |edition.value| != 1 {
      return false;
    }
    gi.databaseType := if edition.value[0] < 128 then edition.value[0] as int else edition.value[0] as int - 256;
    offset := offset + 1;
    if gi.databaseType >= 106 {
      gi.databaseType := gi.databaseType - 105;
    }
    assert gi.databaseType == EditionOf(fno[at]);
    hide EditionOf;

    if gi.databaseType == REGION_EDITION_REV0 {
      gi.databaseSegments := Some(STATE_BEGIN_REV0);
    } else if gi.databaseType == REGION_EDITION_REV1 {
      gi.databaseSegments := Some(STATE_BEGIN_REV1);
    } else if TwoSegments(gi.databaseType) {
      var buf := Pread(fno, 3, offset);
      if buf.None? || |buf.value| != 3 {
        return false;
      }
      var segment := SumBytes(buf.value);
      gi.databaseSegments := Some(segment);
      if OrgLike(gi.databaseType) {
        gi.recordLength := ORG_RECORD_LENGTH;
      }
    }
    NoRegion(gi.databaseType);
    StructureRead(gi.View(), at - 3);
    return true;
  }

  /** _setup_segments */
  method SetupSegments(gi: GeoIP)
    requires gi.size == |gi.database|
    modifies gi`databaseSegments, gi`databaseType, gi`recordLength
    ensures Structure(gi.databaseSegments, gi.databaseType, gi.recordLength) == StructureOf(gi.database)
  {
    hide FindMarker, CountryLike, LargeCountryLike;
    var fno := gi.database;
    var offset: int := gi.size - 3;
    gi.databaseSegments := None;
    gi.databaseType := COUNTRY_EDITION;
    gi.recordLength := STANDARD_RECORD_LENGTH;

    var i := 0;
    while i < STRUCTURE_INFO_MAX_SIZE
      invariant 0 <= i <= STRUCTURE_INFO_MAX_SIZE && offset <= |fno| - 3
      invariant FindMarker(fno, |fno| - 3, STRUCTURE_INFO_MAX_SIZE) ==
                FindMarker(fno, offset, STRUCTURE_INFO_MAX_SIZE - i)
      invariant gi.databaseSegments == None
      invariant gi.databaseType == COUNTRY_EDITION && gi.recordLength == STANDARD_RECORD_LENGTH
    {
      ScanStep(fno, offset, STRUCTURE_INFO_MAX_SIZE - i);
      var delim := Pread(fno, 3, offset);
      if delim.None? || |delim.value| != 3 {
        return;
      }
      offset := offset + 3;
      if delim.value[0] == 255 && delim.value[1] == 255 && delim.value[2] == 255 {
        var complete := ReadStructure(gi, offset);
        if !complete {
          return;
        }
        break;
      } else {
        offset := offset - 4;
        if offset < 0 {
          gi.databaseSegments := None;
          return;
        }
      }
      i := i + 1;
    }
    ScanStep(fno, offset, 0);
    assert SegmentSoFar(gi.View()) by { EditionsDisjoint(COUNTRY_EDITION); }
    hide StructureOf;
    if CountryLike(gi.databaseType) {
      gi.databaseSegments := Some(COUNTRY_BEGIN);
    } else if LargeCountryLike(gi.databaseType) {
      gi.databaseSegments := Some(LARGE_COUNTRY_BEGIN);
    }
  }

  method CheckMtime(gi: GeoIP, os: System)
    modifies gi`database, gi`cache, gi`indexCache, gi`databaseSegments, gi`databaseType, gi`mtime,
             gi`size, gi`recordLength, gi`lastMtimeCheck
    ensures gi.View() == Checked(old(gi.View()), os.clock, os.file)
  {
    hide StructureOf, IndexSize, Delimits;
    if gi.flags.checkCache {
      if os.clock == gi.lastMtimeCheck {
        return;
      }
      gi.lastMtimeCheck := os.clock;
      if os.file.Some? {
        var buf := os.file.value;
        if buf.mtime != gi.mtime && buf.mtime + 60 < gi.lastMtimeCheck {
          gi.database := buf.bytes;
          gi.mtime := buf.mtime;
          gi.size := |buf.bytes|;
          if gi.flags.mmapCache && |buf.bytes| == 0 {
            gi.cache := None;
            return;
          }
          if Caches(gi.flags) {
            gi.cache := Pread(gi.database, |buf.bytes|, 0);
            assert buf.bytes[0..0 + |buf.bytes|] == buf.bytes;
          }
          SetupSegments(gi);
          if gi.databaseSegments == None {
            return;
          }
          var indexSize := GetIndexSize(gi, |buf.bytes|);
          if indexSize < 0 {
            return;
          }
          if gi.flags.indexCache {
            gi.indexCache := Pread(gi.database, indexSize, 0);
            assert buf.bytes[0..0 + indexSize] == buf.bytes[..indexSize];
          }
        }
      }
    }
  }

  method GeoIPOpen(v: FileVersion, flags: Flags) returns (gi: GeoIP?)
    ensures gi == null <==> Opened(v, flags).None?
    ensures gi != null ==> fresh(gi) && gi.View() == Opened(v, flags).value
    ensures gi != null ==> gi.teredo && !gi.utf8
  {
    hide StructureOf, IndexSize, Delimits;
    gi := new GeoIP(v.bytes);
    if Caches(flags) {
      gi.mtime := v.mtime;
      if flags.mmapCache && |v.bytes| == 0 {
        EmptyIsRejected(v, flags);
        return null;
      }
      gi.cache := Pread(gi.database, |v.bytes|, 0);
      assert v.bytes[0..0 + |v.bytes|] == v.bytes;
    } else {
      if flags.checkCache {
        gi.mtime := v.mtime;
      } else {
        gi.mtime := 0;
      }
      gi.cache := None;
    }
    gi.flags := flags;
    gi.utf8 := false;
    gi.teredo := true;
    SetupSegments(gi);
    if gi.databaseSegments == None {
      return null;
    }
    var indexSize := GetIndexSize(gi, |v.bytes|);
    if indexSize < 0 {
      return null;
    }
    if flags.indexCache {
      gi.indexCache := Pread(gi.database, indexSize, 0);
      assert v.bytes[0..0 + indexSize] == v.bytes[..indexSize];
    } else {
      gi.indexCache := None;
    }
    gi.lastMtimeCheck := 0;
  }
}
