/** Organization, ISP and similar names: NUL-terminated strings behind the index. */
module Names {
  import opened Bytes
  import opened Charset
  import opened GeoIPDatabase
  import opened City

  const MAX_ORG_RECORD_LENGTH := 300

  /** Overrun stands for reading past a buffer, which the C code does not guard against. */
  datatype Name = NoName | Overrun | Text(bytes: seq<byte>)

  function NameIn(s: seq<byte>, utf8: bool): Name {
    var f := Field(s);
    if f.None? then Overrun else Text(if utf8 then Utf8(f.value.0) else f.value.0)
  }

  /** The name behind a leaf value. The IPv6 functions put a NUL behind the read buffer, the IPv4
      ones do not; `garbage` is what the stack held in it. */
  function NameAt(h: Handle, utf8: bool, seek: nat, garbage: seq<byte>, terminated: bool): Name
    requires h.segment.Some? && h.recordLength >= 1 && |garbage| == MAX_ORG_RECORD_LENGTH
  {
    var p := RecordPointer(seek, h.recordLength, h.segment.value);
    if seek == h.segment.value then NoName
    else if h.cache.None? then
      var r := Pread(h.database, MAX_ORG_RECORD_LENGTH, p);
      if r.None? then NoName
      else NameIn(r.value + garbage[|r.value|..] + (if terminated then [0] else []), utf8)
    else if p < 0 || p > |h.cache.value| then Overrun
    else NameIn(h.cache.value[p..], utf8)
  }

  /** The common end of the name functions, after the lookup. */
  method ReadName(gi: GeoIP, seek: nat, garbage: seq<byte>, terminated: bool) returns (org: Option<seq<byte>>)
    requires gi.databaseSegments.Some? && gi.recordLength >= 1 && |garbage| == MAX_ORG_RECORD_LENGTH
    requires !NameAt(gi.View(), gi.utf8, seek, garbage, terminated).Overrun?
    ensures match NameAt(gi.View(), gi.utf8, seek, garbage, terminated)
            case NoName => org == None
            case Text(t) => org == Some(t)
            case Overrun => false
    ensures seek == gi.databaseSegments.value ==> org == None
    ensures forall text: seq<byte> | 0 !in text && StoredAt(gi.View(), seek, text + [0]) ::
              gi.cache == Some(gi.database) || (gi.cache.None? && |text| < if terminated then 301 else 300) ==>
                org == Some(if gi.utf8 then Utf8(text) else text)
  {
    forall text: seq<byte> | 0 !in text && StoredAt(gi.View(), seek, text + [0])
      ensures gi.cache == Some(gi.database) || (gi.cache.None? && |text| < if terminated then 301 else 300) ==>
                NameAt(gi.View(), gi.utf8, seek, garbage, terminated) ==
                Text(if gi.utf8 then Utf8(text) else text)
    {
      StoredName(gi.View(), gi.utf8, seek, text, terminated, garbage);
    }
    hide StoredAt;
    hide RecordPointer, Field, Utf8;
    if seek == gi.databaseSegments.value {
      return None;
    }
    var pointer := RecordPointer(seek, gi.recordLength, gi.databaseSegments.value);
    var buf: seq<byte>;
    if gi.cache == None {
      var r := Pread(gi.database, MAX_ORG_RECORD_LENGTH, pointer);
      if r == None {
        return None;
      }
      buf := r.value + garbage[|r.value|..] + (if terminated then [0] else []);
    } else {
      buf := gi.cache.value[pointer..];
    }
    FieldIsCString(buf);
    if gi.utf8 {
      var converted := Iso88591ToUtf8(buf);
      return Some(converted[..converted.Length - 1]);
    }
    assert buf[0..] == buf;
    var len := StrLen(buf, 0);
    return Some(buf[..len]);
  }

  /** Names up to this length come back whole in disk mode. */
  function Limit(terminated: bool): nat {
    if terminated then MAX_ORG_RECORD_LENGTH else MAX_ORG_RECORD_LENGTH - 1
  }

  function Converted(text: seq<byte>, utf8: bool): seq<byte> {
    if utf8 then Utf8(text) else text
  }

  /** Memory mode returns a stored name whole, disk mode exactly when it is short enough. */
  lemma NameModes(h: Handle, utf8: bool, seek: nat, text: seq<byte>, terminated: bool, garbage: seq<byte>)
    requires 0 !in text && StoredAt(h, seek, text + [0]) && h.cache.None?
    requires |garbage| == MAX_ORG_RECORD_LENGTH
    ensures var name := Text(if utf8 then Utf8(text) else text);
            && NameAt(h.(cache := Some(h.database)), utf8, seek, garbage, terminated) == name
            && (NameAt(h, utf8, seek, garbage, terminated) == name <==> |text| < if terminated then 301 else 300)
  {
    NameByLength(h, utf8, seek, text, terminated, garbage);
    hide NameAt;
  }

  lemma NameByLength(h: Handle, utf8: bool, seek: nat, text: seq<byte>, terminated: bool, garbage: seq<byte>)
    requires 0 !in text && StoredAt(h, seek, text + [0]) && h.cache.None?
    requires |garbage| == MAX_ORG_RECORD_LENGTH
    ensures NameAt(h.(cache := Some(h.database)), utf8, seek, garbage, terminated) == Text(Converted(text, utf8))
    ensures NameAt(h, utf8, seek, garbage, terminated) == Text(Converted(text, utf8)) <==> |text| <= Limit(terminated)
  {
    var p := seek + (2 * h.recordLength - 1) * h.segment.value;
    PointerPlain(seek, h.recordLength, h.segment.value);
    MemoryName(h.database, p, text);
    var r := Pread(h.database, MAX_ORG_RECORD_LENGTH, p);
    DiskName(h.database, p, text, garbage, terminated);
    ShorterConverts(text, utf8);
    hide RecordPointer, Field, Pread, Utf8;
  }

  lemma StoredName(h: Handle, utf8: bool, seek: nat, text: seq<byte>, terminated: bool, garbage: seq<byte>)
    requires 0 !in text && StoredAt(h, seek, text + [0]) && |garbage| == MAX_ORG_RECORD_LENGTH
    ensures h.cache == Some(h.database) || (h.cache.None? && |text| < if terminated then 301 else 300) ==>
              NameAt(h, utf8, seek, garbage, terminated) == Text(if utf8 then Utf8(text) else text)
  {
    var disk := h.(cache := None);
    assert StoredAt(disk, seek, text + [0]);
    NameModes(disk, utf8, seek, text, terminated, garbage);
    hide StoredAt, NameAt, Utf8;
    if h.cache == Some(h.database) {
      assert disk.(cache := Some(h.database)) == h;
    } else if h.cache.None? {
      assert disk == h;
    }
  }

  /** No name at the segment value itself, in any mode and for every buffer content; and none on disk
      for a pointer before the file. */
  lemma NoNameThere(h: Handle, utf8: bool, seek: nat, garbage: seq<byte>, terminated: bool)
    requires h.segment.Some? && h.recordLength >= 1 && |garbage| == 300
    ensures seek == h.segment.value ==> NameAt(h, utf8, seek, garbage, terminated) == NoName
    ensures h.cache.None? && RecordPointer(seek, h.recordLength, h.segment.value) < 0 ==>
              NameAt(h, utf8, seek, garbage, terminated) == NoName
  {
    hide RecordPointer;
  }

  lemma MemoryName(file: seq<byte>, p: nat, text: seq<byte>)
    requires 0 !in text && p + |text| + 1 <= |file| && file[p..p + |text| + 1] == text + [0]
    ensures Field(file[p..]).Some? && Field(file[p..]).value.0 == text
  {
    var rest := file[p + |text| + 1..];
    assert file[p..] == text + [0] + rest;
    FieldFront(text, rest);
    hide Field;
  }

  /** A read of 300 bytes holds the whole name and its NUL, or only its first 300 bytes. */
  lemma DiskName(file: seq<byte>, p: nat, text: seq<byte>, garbage: seq<byte>, terminated: bool)
    requires 0 !in text && p + |text| + 1 <= |file| && file[p..p + |text| + 1] == text + [0]
    requires |garbage| == MAX_ORG_RECORD_LENGTH
    ensures var r := Pread(file, MAX_ORG_RECORD_LENGTH, p);
            && r.Some?
            && var f := Field(r.value + garbage[|r.value|..] + (if terminated then [0] else []));
            if |text| <= Limit(terminated) then f.Some? && f.value.0 == text
            else if terminated then f.Some? && f.value.0 == text[..MAX_ORG_RECORD_LENGTH]
            else f.None?
  {
    var m := MAX_ORG_RECORD_LENGTH;
    var r := Pread(file, m, p).value;
    var tail: seq<byte> := if terminated then [0] else [];
    var s := r + garbage[|r|..] + tail;
    assert forall k | 0 <= k < |r| :: r[k] == file[p + k];
    var stored := file[p..p + |text| + 1];
    assert forall k | 0 <= k <= |text| :: stored[k] == file[p + k];
    hide Field, Pread;
    if |text| < m {
      assert s == text + [0] + s[|text| + 1..];
      FieldFront(text, s[|text| + 1..]);
    } else {
      var head := text[..m];
      assert r == head;
      if terminated {
        assert s == head + [0] + [];
        assert |text| == m ==> head == text;
        FieldFront(head, []);
      } else {
        assert s == head;
        NoNul(head);
      }
    }
  }

  lemma {:induction false} NoNul(s: seq<byte>)
    requires 0 !in s
    ensures Field(s).None?
  {
    if s != [] {
      assert s[0] in s;
      NoNul(s[1..]);
    }
  }

  lemma ShorterConverts(text: seq<byte>, utf8: bool)
    ensures |text| > MAX_ORG_RECORD_LENGTH ==>
              Converted(text[..MAX_ORG_RECORD_LENGTH], utf8) != Converted(text, utf8)
  {
    var m := MAX_ORG_RECORD_LENGTH;
    if |text| > m {
      NextByte(text, m);
      assert text[..|text|] == text;
      Utf8Mono(text, m + 1, |text|);
      hide Utf8;
    }
  }
}
