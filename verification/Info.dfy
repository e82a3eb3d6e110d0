/** The free-text description stored before the structure information. */
module DatabaseInfo {
  import opened Bytes
  import opened Footer
  import opened GeoIPDatabase

  const DATABASE_INFO_MAX_SIZE := 100

  predicate ZeroTriple(bytes: seq<byte>, p: int) {
    0 <= p && p + 3 <= |bytes| && bytes[p] == 0 && bytes[p + 1] == 0 && bytes[p + 2] == 0
  }

  /** Scans `tries` overlapping windows backwards from p for three zero bytes; the text is the i
      bytes behind them, one more for each step back. */
  function FindText(bytes: seq<byte>, p: int, i: nat, tries: nat): Option<seq<byte>>
    decreases tries
  {
    if tries == 0 || p < 0 || p + 3 > |bytes| then None
    else if ZeroTriple(bytes, p) then
      if p + 3 + i <= |bytes| then Some(bytes[p + 3..p + 3 + i]) else None
    else if p == 0 then None
    else FindText(bytes, p - 1, i + 1, tries - 1)
  }

  /** The whole search: from the marker if there is one, else from the end. The two sizes are the
      handle's before and after it has been checked for a new file. */
  function InfoText(bytes: seq<byte>, sizeBefore: nat, size: nat): Option<seq<byte>> {
    match FindMarker(bytes, sizeBefore - 3, STRUCTURE_INFO_MAX_SIZE)
    case Found(m) => if m < 3 then None else FindText(bytes, m - 3, 0, DATABASE_INFO_MAX_SIZE)
    case NoMarker => if size < 3 then None else FindText(bytes, size - 3, 0, DATABASE_INFO_MAX_SIZE)
    case _ => None
  }

  /** z is the nearest zero triple ending at or before `end`, within the scanned window. */
  predicate NearestZeros(bytes: seq<byte>, end: nat, z: nat) {
    && ZeroTriple(bytes, z) && end - 102 <= z <= end - 3
    && forall q | z < q <= end - 3 :: !ZeroTriple(bytes, q)
  }

  lemma {:induction false} TextFound(bytes: seq<byte>, end: nat, p: int, i: nat, tries: nat)
    requires end <= |bytes| && p + 3 + i == end && tries + i == DATABASE_INFO_MAX_SIZE
    requires forall q | p < q <= end - 3 :: !ZeroTriple(bytes, q)
    ensures forall z: nat | NearestZeros(bytes, end, z) ::
              FindText(bytes, p, i, tries) == Some(bytes[z + 3..end])
    ensures (forall z: nat :: !NearestZeros(bytes, end, z)) ==> FindText(bytes, p, i, tries) == None
    decreases tries
  {
    if tries > 0 && p >= 0 {
      if ZeroTriple(bytes, p) {
        assert NearestZeros(bytes, end, p);
        forall z: nat | NearestZeros(bytes, end, z) ensures z == p {}
      } else if p > 0 {
        TextFound(bytes, end, p - 1, i + 1, tries - 1);
      }
    }
  }

  /** Where the text ends: at the marker, or at the end of a file without one. None when the scan
      for the marker leaves the file. */
  function TextEnd(bytes: seq<byte>): (r: Option<nat>)
    ensures r.Some? ==> r.value <= |bytes|
  {
    ScanSelectsLast(bytes, |bytes| - 3, STRUCTURE_INFO_MAX_SIZE);
    match FindMarker(bytes, |bytes| - 3, STRUCTURE_INFO_MAX_SIZE)
    case Found(m) => Some(m)
    case NoMarker => Some(|bytes|)
    case _ => None
  }

  /** In a consistent file the text is exactly what lies between the nearest zero triple before
      the marker (before the end, in a file without one) and that marker; without such a triple
      there is none. */
  lemma InfoIsBetween(bytes: seq<byte>)
    ensures var info := InfoText(bytes, |bytes|, |bytes|);
            if TextEnd(bytes).None? then info == None
            else
              var end := TextEnd(bytes).value;
              && (forall z: nat | NearestZeros(bytes, end, z) :: info == Some(bytes[z + 3..end]))
              && ((forall z: nat :: !NearestZeros(bytes, end, z)) ==> info == None)
  {
    ScanSelectsLast(bytes, |bytes| - 3, STRUCTURE_INFO_MAX_SIZE);
    if TextEnd(bytes).Some? {
      var end := TextEnd(bytes).value;
      TextFound(bytes, end, end as int - 3, 0, DATABASE_INFO_MAX_SIZE);
    }
    hide FindMarker, FindText, NearestZeros;
  }

  /** A NUL-free text between three zero bytes and a recoverable footer is returned exactly when
      it is shorter than a hundred bytes. */
  lemma InfoRoundTrip(prefix: seq<byte>, text: seq<byte>, edition: byte, segment: nat)
    requires 0 !in text && TwoSegments(EditionOf(edition)) && segment < 0xFF_FFFF
    ensures var bytes := prefix + [0, 0, 0] + text + FooterBytes(edition, segment);
            InfoText(bytes, |bytes|, |bytes|) ==
            if |text| < 100 then Some(text) else None
  {
    var front := prefix + [0, 0, 0] + text;
    var bytes := front + FooterBytes(edition, segment);
    var end, z := |front|, |prefix|;
    FooterRoundTrip(front, edition, segment);
    hide FooterBytes, FindMarker, InfoText, FindText, TwoSegments, EditionOf;
    assert forall k | 0 <= k < end :: bytes[k] == front[k];
    assert ZeroTriple(bytes, z);
    forall q | z < q <= end - 3
      ensures !ZeroTriple(bytes, q)
    {
      assert bytes[q + 2] == text[q + 2 - z - 3];
    }
    InfoIsBetween(bytes);
    if |text| < DATABASE_INFO_MAX_SIZE {
      assert NearestZeros(bytes, end, z);
      assert bytes[z + 3..end] == text;
    } else {
      forall q: nat ensures !NearestZeros(bytes, end, q) {}
    }
  }

  /** Likewise at the end of a file without structure information, which then must have 23 bytes. */
  lemma OldInfoRoundTrip(prefix: seq<byte>, text: seq<byte>)
    requires 0 !in text
    requires var bytes := prefix + [0, 0, 0] + text;
             forall q | 0 <= q && |bytes| - 22 <= q <= |bytes| - 3 ::
               bytes[q] != 255 || bytes[q + 1] != 255 || bytes[q + 2] != 255
    ensures var bytes := prefix + [0, 0, 0] + text;
            InfoText(bytes, |bytes|, |bytes|) ==
            if |bytes| >= 23 && |text| < 100 then Some(text) else None
  {
    var bytes := prefix + [0, 0, 0] + text;
    var end, z := |bytes|, |prefix|;
    ScanSelectsLast(bytes, end - 3, STRUCTURE_INFO_MAX_SIZE);
    hide FindMarker, InfoText, FindText;
    assert ZeroTriple(bytes, z);
    forall q | z < q <= end - 3
      ensures !ZeroTriple(bytes, q)
    {
      assert bytes[q + 2] == text[q + 2 - z - 3];
    }
    InfoIsBetween(bytes);
    if |text| < 100 {
      assert NearestZeros(bytes, end, z);
      assert bytes[z + 3..end] == text;
    } else {
      forall q: nat ensures !NearestZeros(bytes, end, q) {}
    }
  }

  /** Six bytes that hide the description of what precedes them from a scan that starts too early. */
  const TAIL: seq<byte> := [0, 0, 0, 255, 255, 255]

  function StaleSizeFile(size: nat): seq<byte>
    requires size >= 6
  {
    seq(size - 6, _ => 1) + TAIL
  }

  /** The scan for the marker starts from the size the handle had before the check for a new file. It
      reads every file of the new size as a scan from its own end does exactly when the size did not
      change, or leaves no room for zeros and a marker. */
  lemma StaleSize(before: nat, size: nat)
    ensures before == size || size < 6 <==>
            forall bytes: seq<byte> | |bytes| == size ::
              InfoText(bytes, before, size) == InfoText(bytes, size, size)
  {
    if size < 6 {
      forall bytes: seq<byte> | |bytes| == size
        ensures InfoText(bytes, before, size) == InfoText(bytes, size, size)
      {
        NothingInShortFile(bytes, before);
        NothingInShortFile(bytes, size);
      }
    } else if before != size {
      StaleSizeExample(before, size);
      var bytes := StaleSizeFile(size);
      assert |bytes| == size && InfoText(bytes, before, size) != InfoText(bytes, size, size);
    }
    hide InfoText;
  }

  lemma NothingInShortFile(bytes: seq<byte>, before: nat)
    requires |bytes| < 6
    ensures InfoText(bytes, before, |bytes|) == None
  {
    if before <= |bytes| {
      ScanSelectsLast(bytes, before - 3, STRUCTURE_INFO_MAX_SIZE);
    } else {
      ScanStep(bytes, before - 3, STRUCTURE_INFO_MAX_SIZE);
    }
    hide FindMarker, FindText;
  }

  /** A file of ones that ends in three zeros and a marker has an empty description. From another
      size none is found, or the marker is taken for it. */
  lemma StaleSizeExample(before: nat, size: nat)
    requires before != size >= 6
    ensures InfoText(StaleSizeFile(size), size, size) == Some([])
    ensures InfoText(StaleSizeFile(size), before, size) in {None, Some([255, 255, 255])}
  {
    var bytes := StaleSizeFile(size);
    StaleSizeBytes(size);
    MarkerFound(bytes, size - 3);
    assert NearestZeros(bytes, size - 3, size - 6) && NearestZeros(bytes, size, size - 6);
    TextFound(bytes, size - 3, size - 6, 0, DATABASE_INFO_MAX_SIZE);
    TextFound(bytes, size, size - 3, 0, DATABASE_INFO_MAX_SIZE);
    if before < size {
      ScanSelectsLast(bytes, before - 3, STRUCTURE_INFO_MAX_SIZE);
    } else {
      ScanStep(bytes, before - 3, STRUCTURE_INFO_MAX_SIZE);
    }
    hide FindMarker, FindText, StaleSizeFile, NearestZeros, ZeroTriple;
  }

  lemma StaleSizeBytes(size: nat)
    requires size >= 6
    ensures var bytes := StaleSizeFile(size);
            && |bytes| == size
            && (forall q :: Marker(bytes, q) <==> q == size - 3)
            && (forall q :: ZeroTriple(bytes, q) <==> q == size - 6)
            && bytes[size - 3..size - 3] == [] && bytes[size - 3..size] == [255, 255, 255]
  {
  }

  /** GeoIP_database_info. Its first offset is computed from the size before the reload check. */
  method GeoIPDatabaseInfo(gi: GeoIP, os: System) returns (info: Option<seq<byte>>)
    modifies gi`database, gi`cache, gi`indexCache, gi`databaseSegments, gi`databaseType, gi`mtime,
             gi`size, gi`recordLength, gi`lastMtimeCheck
    ensures gi.View() == Checked(old(gi.View()), os.clock, os.file)
    ensures info == InfoText(gi.database, old(gi.size), gi.size)
  {
    hide Checked, FindMarker, FindText;
    var offset: int := gi.size - 3;
    ghost var first := offset;
    CheckMtime(gi, os);
    ghost var h := gi.View();
    var fno := gi.database;
    var hasStructureInfo := false;
    var i := 0;
    while i < STRUCTURE_INFO_MAX_SIZE
      invariant 0 <= i <= STRUCTURE_INFO_MAX_SIZE && !hasStructureInfo && gi.View() == h
      invariant FindMarker(fno, first, STRUCTURE_INFO_MAX_SIZE) ==
                FindMarker(fno, offset, STRUCTURE_INFO_MAX_SIZE - i)
    {
      ScanStep(fno, offset, STRUCTURE_INFO_MAX_SIZE - i);
      var buf := Pread(fno, 3, offset);
      if buf.None? || |buf.value| != 3 {
        return None;
      }
      offset := offset + 3;
      if buf.value[0] == 255 && buf.value[1] == 255 && buf.value[2] == 255 {
        hasStructureInfo := true;
        break;
      }
      offset := offset - 4;
      if offset < 0 {
        return None;
      }
      i := i + 1;
    }
    ScanStep(fno, offset, 0);
    if hasStructureInfo {
      offset := offset - 6;
      if offset < 0 {
        return None;
      }
    } else {
      offset := gi.size - 3;
      if offset < 0 {
        return None;
      }
    }
    info := ReadText(fno, offset);
  }

  /** The second loop: finds the zero bytes and reads the text behind them. */
  method ReadText(fno: seq<byte>, start: nat) returns (info: Option<seq<byte>>)
    ensures info == FindText(fno, start, 0, DATABASE_INFO_MAX_SIZE)
  {
    var offset: int := start;
    var i := 0;
    while i < DATABASE_INFO_MAX_SIZE
      invariant 0 <= i <= DATABASE_INFO_MAX_SIZE
      invariant FindText(fno, start, 0, DATABASE_INFO_MAX_SIZE) ==
                FindText(fno, offset, i, DATABASE_INFO_MAX_SIZE - i)
    {
      var buf := Pread(fno, 3, offset);
      if buf.None? || |buf.value| != 3 {
        return None;
      }
      offset := offset + 3;
      if buf.value[0] == 0 && buf.value[1] == 0 && buf.value[2] == 0 {
        var text := Pread(fno, i, offset);
        if text.None? || |text.value| != i {
          return None;
        }
        return text;
      }
      offset := offset - 4;
      if offset < 0 {
        return None;
      }
      i := i + 1;
    }
    return None;
  }
}
