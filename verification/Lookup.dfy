/** IPv4 lookups through the handle. */
module IPv4Lookup {
  import opened Bits
  import opened Bytes
  import opened Footer
  import opened Trie
  import opened GeoIPDatabase

  /** The index of the open file as it is meant: a node is two records long. */
  function PlainGrid(h: Handle): Grid {
    Grid(h.database, 2 * h.recordLength, h.recordLength, if h.segment.Some? then h.segment.value else 0)
  }

  /** Whether the index cache of a handle holds every node a lookup may visit. */
  predicate IndexCovers(h: Handle)
    requires h.segment.Some?
  {
    h.segment.value >= 1 || !HasContent(h.edition) || h.size < 2 * h.recordLength
  }

  /** A handle on which lookups are what they are meant to be, see `ReadyFinds`. */
  predicate Ready(h: Handle) {
    Coherent(h) && (h.indexCache.Some? ==> IndexCovers(h))
  }

  // ------------------------------------------------------------ what a lookup reads

  const MAX_PAIR_LENGTH := 8

  /** What the lookup's uninitialized stack buffer holds. */
  type StackBuffer = s: seq<byte> | |s| == MAX_PAIR_LENGTH witness seq(MAX_PAIR_LENGTH, _ => 0)

  /** A read of the node at a byte offset. A disk read fills the front of the stack buffer; a cache
      is pointed into. Outside is a pointer past a cache. */
  datatype Read = Short | Outside | Buffer(bytes: seq<byte>)

  function NodeBuffer(h: Handle, stride: nat, byteOffset: nat, garbage: StackBuffer): Read
    requires stride <= MAX_PAIR_LENGTH
  {
    if h.cache.None? && h.indexCache.None? then
      var r := Pread(h.database, stride, byteOffset);
      if r.Some? && |r.value| == stride then Buffer(r.value + garbage[stride..]) else Short
    else if h.indexCache.None? then
      if byteOffset <= |h.cache.value| then Buffer(h.cache.value[byteOffset..]) else Outside
    else
      if byteOffset <= |h.indexCache.value| then Buffer(h.indexCache.value[byteOffset..]) else Outside
  }

  /** One half of a node; None when it reaches past the buffer. */
  function Half(buf: seq<byte>, recordLength: nat, right: bool): Option<nat> {
    if right then
      if 2 * recordLength <= |buf| then Some(Le(buf[recordLength..2 * recordLength])) else None
    else
      if recordLength <= |buf| then Some(Le(buf[..recordLength])) else None
  }

  /** The unsigned product that locates a node. */
  function ByteOffset(recordPairLength: nat, offset: nat): u32 {
    recordPairLength * offset % 0x1_0000_0000
  }

  /** Decodable records, and node pairs that fit the stack buffer. */
  predicate Walkable(h: Handle, stride: nat) {
    1 <= h.recordLength <= 4 && stride <= MAX_PAIR_LENGTH
  }

  /** The walk from node n over d address bits as a mode performs it, on the bytes that mode reads
      and with any stride; None when it reads outside a buffer or a cache, or compares a pointer with
      a segment value that is not there. */
  function ModeFind(h: Handle, stride: nat, garbage: StackBuffer, n: nat, ip: nat, d: nat): Option<Answer>
    decreases d
  {
    if !Walkable(h, stride) then None
    else if d == 0 || ByteOffset(stride, n) > h.size - stride then Some(Miss)
    else
      match NodeBuffer(h, stride, ByteOffset(stride, n), garbage)
      case Short => Some(Miss)
      case Outside => None
      case Buffer(buf) =>
        var x := Half(buf, h.recordLength, Bit(ip, d - 1));
        if x.None? || h.segment.None? then None
        else if x.value >= h.segment.value then Some(Hit(x.value, d - 1))
        else ModeFind(h, stride, garbage, x.value, ip, d - 1)
  }

  // ------------------------------------------------------------ the modes agree

  /** Nodes a walk can visit: the root, or what a pointer below the segment value names. */
  predicate Visitable(h: Handle, n: nat) {
    n == 0 || (h.segment.Some? && n < h.segment.value)
  }

  /** The index cache covers every visitable node that lies in the file exactly when the segment
      value is at least 1, or there is no content, or the file has no node at all. */
  lemma IndexCoverage(h: Handle)
    requires Coherent(h) && h.indexCache.Some?
    ensures IndexCovers(h) <==>
            forall n: nat | Visitable(h, n) && PlainGrid(h).HasNode(n) ::
              2 * h.recordLength * n + 2 * h.recordLength <= |h.indexCache.value|
  {
    StructureBounds(h.database);
    var w := 2 * h.recordLength;
    forall n: nat | IndexCovers(h) && Visitable(h, n) && PlainGrid(h).HasNode(n)
      ensures w * n + w <= |h.indexCache.value|
    {
      if HasContent(h.edition) {
        MulMono(n + 1, h.segment.value, w);
      }
    }
    if !IndexCovers(h) {
      assert Visitable(h, 0) && PlainGrid(h).HasNode(0) && |h.indexCache.value| == 0;
    }
  }

  /** For any bytes, the three ways of reading a visitable node give the bytes in the file. */
  lemma CacheModesAgree(h: Handle, n: nat, garbage: StackBuffer)
    requires Ready(h) && 2 * h.recordLength <= MAX_PAIR_LENGTH && Visitable(h, n) && PlainGrid(h).HasNode(n)
    ensures var at, w := PlainGrid(h).At(n), 2 * h.recordLength;
            var r := NodeBuffer(h, w, at, garbage);
            r.Buffer? && |r.bytes| >= w && r.bytes[..w] == h.database[at..at + w]
  {
    var at, w := PlainGrid(h).At(n), 2 * h.recordLength;
    if h.indexCache.Some? {
      IndexCoverage(h);
      assert PlainGrid(h).HasNode(n);
      PrefixSlice(h.database, |h.indexCache.value|, at, w);
    } else if h.cache.Some? {
      PrefixSlice(h.database, |h.database|, at, w);
      assert h.database[..|h.database|] == h.database;
    }
    hide Grid.At, IndexCovers, StructureOf;
  }

  /** The product never wraps: every node a walk visits lies below the 24-bit segment value. */
  lemma ProductFits(h: Handle, n: nat)
    requires Ready(h) && Visitable(h, n)
    ensures ByteOffset(2 * h.recordLength, n) == PlainGrid(h).At(n)
  {
    StructureBounds(h.database);
    var w := 2 * h.recordLength;
    MulMono(n, 0x100_0000, w);
    DivModUnique(w * n, 0x1_0000_0000, 0, w * n);
  }

  /** A buffer that starts like the file at `at` holds the same two records there. */
  lemma SliceOfSlice(file: seq<byte>, at: nat, buf: seq<byte>, recordLength: nat, right: bool)
    requires at + 2 * recordLength <= |file| && 2 * recordLength <= |buf|
    requires buf[..2 * recordLength] == file[at..at + 2 * recordLength]
    ensures var from := at + if right then recordLength else 0;
            file[from..from + recordLength] ==
            if right then buf[recordLength..2 * recordLength] else buf[..recordLength]
  {
    var w := 2 * recordLength;
    assert buf[0..0 + w] == buf[..w];
    if right {
      SubSlice(file, at, w, recordLength, w);
      SubSlice(buf, 0, w, recordLength, w);
    } else {
      SubSlice(file, at, w, 0, recordLength);
      SubSlice(buf, 0, w, 0, recordLength);
    }
  }

  /** Decoding the buffer a mode supplies gives the child of the node in the file. */
  lemma BufferHoldsChild(h: Handle, n: nat, buf: seq<byte>, right: bool)
    requires h.segment.Some? && PlainGrid(h).Shaped() && PlainGrid(h).HasNode(n)
    requires |buf| >= 2 * h.recordLength
    requires var at := PlainGrid(h).At(n); buf[..2 * h.recordLength] == h.database[at..at + 2 * h.recordLength]
    ensures Half(buf, h.recordLength, right) == Some(PlainGrid(h).Child(n, right))
  {
    hide Grid.At, Le;
    SliceOfSlice(h.database, PlainGrid(h).At(n), buf, h.recordLength, right);
  }

  /** On a file shorter than a node every lookup misses, with a segment value or without. */
  lemma ShortFileMisses(h: Handle, stride: nat, garbage: StackBuffer, ip: nat, width: nat)
    requires Walkable(h, stride) && h.size < stride
    ensures ModeFind(h, stride, garbage, 0, ip, width) == Some(Miss)
  {
  }

  /** Without a segment value, those are the only lookups that end. */
  lemma NoSegmentWalk(h: Handle, stride: nat, garbage: StackBuffer, ip: nat, width: nat)
    requires Walkable(h, stride) && h.size == |h.database| && h.segment.None? && width > 0
    ensures ModeFind(h, stride, garbage, 0, ip, width).Some? <==> h.size < stride
  {
    assert stride * 0 % 0x1_0000_0000 == 0;
    hide Half, Bit, Le;
  }

  lemma ReadyFacts(h: Handle)
    requires Ready(h)
    ensures h.segment.Some? && h.size == |h.database| && PlainGrid(h).Shaped()
    ensures Walkable(h, 2 * h.recordLength)
    ensures PlainGrid(h).stride == 2 * h.recordLength && PlainGrid(h).segment == h.segment.value
  {
    StructureBounds(h.database);
  }

  lemma ModeFindReads(h: Handle, garbage: StackBuffer, n: nat, ip: nat, d: nat)
    requires Ready(h) && PlainGrid(h).Shaped() && Visitable(h, n) && d > 0 && PlainGrid(h).HasNode(n)
    ensures var x := PlainGrid(h).Child(n, Bit(ip, d - 1));
            ModeFind(h, 2 * h.recordLength, garbage, n, ip, d) ==
            if x >= PlainGrid(h).segment then Some(Hit(x, d - 1))
            else ModeFind(h, 2 * h.recordLength, garbage, x, ip, d - 1)
  {
    ReadyFacts(h);
    ProductFits(h, n);
    CacheModesAgree(h, n, garbage);
    var r := NodeBuffer(h, 2 * h.recordLength, PlainGrid(h).At(n), garbage);
    BufferHoldsChild(h, n, r.bytes, Bit(ip, d - 1));
    hide Ready, Grid.At, Grid.Child, NodeBuffer, Half, Bit, ByteOffset;
  }

  /** The walk of the trie in the file, from node n over d bits. */
  function PlainFind(h: Handle, n: nat, ip: nat, d: nat): Answer {
    if PlainGrid(h).Shaped() then Find(Tree(PlainGrid(h), n, d), ip, d) else Miss
  }

  /** One step of both walks. */
  lemma BothStep(h: Handle, garbage: StackBuffer, n: nat, ip: nat, d: nat) returns (next: Option<nat>)
    requires Ready(h) && Visitable(h, n)
    ensures next.None? ==>
              ModeFind(h, 2 * h.recordLength, garbage, n, ip, d) == Some(PlainFind(h, n, ip, d))
    ensures next.Some? ==>
              && d > 0 && Visitable(h, next.value)
              && PlainFind(h, n, ip, d) == PlainFind(h, next.value, ip, d - 1)
              && ModeFind(h, 2 * h.recordLength, garbage, n, ip, d) ==
                 ModeFind(h, 2 * h.recordLength, garbage, next.value, ip, d - 1)
  {
    var g := PlainGrid(h);
    ReadyFacts(h);
    hide Ready, ModeFind, Find, Tree, Bit, Grid.Shaped, Grid.At, Grid.Child, Grid.HasNode;
    if d > 0 && g.HasNode(n) {
      ModeFindReads(h, garbage, n, ip, d);
      FindStep(g, n, ip, d);
      var x := g.Child(n, Bit(ip, d - 1));
      next := if x < g.segment then Some(x) else None;
    } else {
      FindDead(g, n, ip, d);
      ModeFindEnds(h, garbage, n, ip, d);
      next := None;
    }
  }

  /** With the proper stride, the walk over a mode's own bytes is the walk of the trie in the file:
      nothing is read outside a buffer, and nothing depends on what the stack held. */
  lemma {:induction false} ModeFindIsFind(h: Handle, garbage: StackBuffer, n: nat, ip: nat, d: nat)
    requires Ready(h) && Visitable(h, n)
    ensures ModeFind(h, 2 * h.recordLength, garbage, n, ip, d) == Some(PlainFind(h, n, ip, d))
    decreases d
  {
    hide *;
    var next := BothStep(h, garbage, n, ip, d);
    if next.Some? {
      ModeFindIsFind(h, garbage, next.value, ip, d - 1);
    }
  }

  lemma ModeFindEnds(h: Handle, garbage: StackBuffer, n: nat, ip: nat, d: nat)
    requires Ready(h) && Visitable(h, n)
    requires d == 0 || !PlainGrid(h).HasNode(n)
    ensures ModeFind(h, 2 * h.recordLength, garbage, n, ip, d) == Some(Miss)
  {
    ReadyFacts(h);
    ProductFits(h, n);
    hide Ready, ByteOffset, Grid.At;
  }

  lemma ReadyFinds(h: Handle, garbage: StackBuffer, ip: nat, width: nat)
    requires Ready(h)
    ensures PlainGrid(h).Shaped()
    ensures ModeFind(h, 2 * h.recordLength, garbage, 0, ip, width) == Some(Lookup(PlainGrid(h), ip, width))
  {
    ReadyFacts(h);
    ModeFindIsFind(h, garbage, 0, ip, width);
    hide Ready, ModeFind, Find, Tree;
  }

  /** With an index cache in use, lookups are those of the trie in the file exactly when the cache
      covers them; if it does not it is empty, and already the first step reads outside it. */
  lemma IndexCacheFinds(h: Handle)
    requires Coherent(h) && h.indexCache.Some?
    ensures PlainGrid(h).Shaped()
    ensures IndexCovers(h) <==>
            forall garbage: StackBuffer, ip: u32 ::
              ModeFind(h, 2 * h.recordLength, garbage, 0, ip, 32) == Some(Lookup(PlainGrid(h), ip, 32))
  {
    StructureBounds(h.database);
    if IndexCovers(h) {
      assert Ready(h);
      hide *;
      forall garbage: StackBuffer, ip: u32
        ensures ModeFind(h, 2 * h.recordLength, garbage, 0, ip, 32) == Some(Lookup(PlainGrid(h), ip, 32))
      {
        ReadyFinds(h, garbage, ip, 32);
      }
    } else {
      var garbage: StackBuffer := seq(MAX_PAIR_LENGTH, _ => 0);
      UncoveredFails(h, garbage, 0, 32);
      var ip: u32 := 0;
      hide Lookup, Coherent;
      assert ModeFind(h, 2 * h.recordLength, garbage, 0, ip, 32) != Some(Lookup(PlainGrid(h), ip, 32));
    }
  }

  lemma UncoveredFails(h: Handle, garbage: StackBuffer, ip: nat, width: nat)
    requires Coherent(h) && h.indexCache.Some? && !IndexCovers(h) && width > 0
    ensures h.indexCache.value == []
    ensures ModeFind(h, 2 * h.recordLength, garbage, 0, ip, width) == None
  {
    StructureBounds(h.database);
    assert 2 * h.recordLength * 0 % 0x1_0000_0000 == 0;
    hide Bit, Le, StructureOf;
  }

  /** A City Edition file of one node and segment value 0. */
  const ZERO_SEGMENT := FileVersion([0, 0, 0, 0, 0, 0] + FooterBytes(CITY_EDITION_REV1, 0), 0)

  /** It opens with an index cache that holds nothing, and every lookup then fails, although each
      address is in the file. */
  lemma ZeroSegmentExample(garbage: StackBuffer, ip: u32)
    ensures var flags := Flags(false, false, true, false);
            && Opened(ZERO_SEGMENT, flags).Some?
            && var h := Opened(ZERO_SEGMENT, flags).value;
            && Coherent(h) && !IndexCovers(h) && PlainGrid(h).Shaped()
            && ModeFind(h, 6, garbage, 0, ip, 32) == None
            && Lookup(PlainGrid(h), ip, 32).Hit?
  {
    var flags := Flags(false, false, true, false);
    FooterRoundTrip([0, 0, 0, 0, 0, 0], CITY_EDITION_REV1, 0);
    hide StructureOf, FooterBytes;
    var h := Opened(ZERO_SEGMENT, flags).value;
    DescribesIsCoherent(h, ZERO_SEGMENT);
    UncoveredFails(h, garbage, ip, 32);
    assert PlainGrid(h).HasNode(0);
    FindStep(PlainGrid(h), 0, ip, 32);
    hide *;
  }

  /** One file opened in any two modes answers every address alike, in value and netmask, whatever
      its bytes and whatever the two stack buffers held. */
  lemma ModesAgree(v: FileVersion, a: Flags, b: Flags, s: StackBuffer, t: StackBuffer, ip: nat, width: nat)
    requires Opened(v, a).Some? && Opened(v, b).Some?
    requires a.indexCache || b.indexCache ==> IndexCovers(Opened(v, a).value)
    ensures var ha, hb := Opened(v, a).value, Opened(v, b).value;
            && PlainGrid(ha).Shaped()
            && ModeFind(ha, 2 * ha.recordLength, s, 0, ip, width) ==
               ModeFind(hb, 2 * hb.recordLength, t, 0, ip, width) ==
               Some(Lookup(PlainGrid(ha), ip, width))
  {
    var ha, hb := Opened(v, a).value, Opened(v, b).value;
    assert Ready(ha) && Ready(hb);
    hide Ready, ModeFind, Lookup, StructureOf, IndexSize, Grid.Shaped;
    ReadyFinds(ha, s, ip, width);
    ReadyFinds(hb, t, ip, width);
  }

  // ------------------------------------------------------------ the C functions

  /** The body both lookup loops share: read a node pair from disk or from a cache, and decode
      the half the address bit selects. None is the short read that ends the walk. */
  method NextPointer(gi: GeoIP, recordPairLength: nat, garbage: StackBuffer, byteOffset: nat, right: bool)
    returns (x: Option<u32>)
    requires Walkable(gi.View(), recordPairLength)
    requires var r := NodeBuffer(gi.View(), recordPairLength, byteOffset, garbage);
             r.Short? || (r.Buffer? && Half(r.bytes, gi.recordLength, right).Some?)
    ensures var r := NodeBuffer(gi.View(), recordPairLength, byteOffset, garbage);
            x == if r.Buffer? then Half(r.bytes, gi.recordLength, right) else None
  {
    hide Le;
    var buf: seq<byte>;
    if gi.cache == None && gi.indexCache == None {
      var r := Pread(gi.database, recordPairLength, byteOffset);
      if r.None? || |r.value| != recordPairLength {
        return None;
      }
      buf := r.value + garbage[recordPairLength..];
    } else if gi.indexCache == None {
      buf := gi.cache.value[byteOffset..];
    } else {
      buf := gi.indexCache.value[byteOffset..];
    }
    var p := DecodeHalf(buf, gi.recordLength, right);
    return Some(p);
  }

  /** `1 << depth`, an int that is widened to the 64 bits of the address: bit 31 is its sign. */
  function BitMask(depth: nat): nat
    requires depth < 32
  {
    if depth == 31 then 0xFFFF_FFFF_8000_0000 else Pow2(depth)
  }

  /** The 32-bit address a lookup follows: an argument that does not fit is read with bit 31 set. */
  function Followed(ipnum: u64): (r: u32)
    ensures ipnum < 0x1_0000_0000 ==> r == ipnum
  {
    ipnum % 0x8000_0000 + if ipnum >= 0x8000_0000 then 0x8000_0000 else 0
  }

  lemma BitMaskSelects(ipnum: u64, depth: nat)
    requires depth < 32
    ensures ipnum < 0x1_0000_0000 ==> Followed(ipnum) == ipnum
    ensures ipnum >= 0x1_0000_0000 ==>
              Followed(ipnum) >= 0x8000_0000 && Followed(ipnum) % 0x8000_0000 == ipnum % 0x8000_0000
    ensures And(ipnum, BitMask(depth)) != 0 <==> Bit(Followed(ipnum), depth)
  {
    if depth == 31 {
      SignMask(ipnum);
    } else {
      LowMask(ipnum, depth);
    }
    hide And, Bit, Followed;
  }

  lemma SignMask(ipnum: u64)
    ensures And(ipnum, 0xFFFF_FFFF_8000_0000) != 0 <==> Bit(Followed(ipnum), 31)
  {
    Pow2Wide();
    AndHigh(ipnum, 64, 31);
    ShrIsDiv(Followed(ipnum), 31);
    hide And, Pow2, Shr;
    DivModUnique(Followed(ipnum), 0x8000_0000, if ipnum >= 0x8000_0000 then 1 else 0, ipnum % 0x8000_0000);
  }

  lemma LowMask(ipnum: u64, depth: nat)
    requires depth < 31
    ensures And(ipnum, Pow2(depth)) != 0 <==> Bit(Followed(ipnum), depth)
  {
    Pow2Wide();
    AndBit(ipnum, depth);
    hide And, Bit, Pow2;
    var q, r := ipnum / 0x8000_0000, ipnum % 0x8000_0000;
    var q' := if ipnum >= 0x8000_0000 then 1 else 0;
    LowBit(q, r, 31, depth);
    LowBit(q', r, 31, depth);
  }

  /** The bit loop of a lookup, on a handle that has just been checked for a new file. `depth` is
      that of the bit that led to a leaf, -1 when none did. */
  method Walk(gi: GeoIP, recordPairLength: nat, ipnum: u64, garbage: StackBuffer) returns (x: u32, depth: int)
    requires ModeFind(gi.View(), recordPairLength, garbage, 0, Followed(ipnum), 32).Some?
    ensures var a := ModeFind(gi.View(), recordPairLength, garbage, 0, Followed(ipnum), 32).value;
            x == ValueOf(a) && depth == if a.Hit? then a.free else -1
  {
    ghost var h := gi.View();
    hide NodeBuffer, Half, Bit, And, BitMask, Followed, ByteOffset;
    var offset: nat := 0;
    depth := 31;
    while depth >= 0
      invariant -1 <= depth <= 31
      invariant ModeFind(h, recordPairLength, garbage, 0, Followed(ipnum), 32) ==
                ModeFind(h, recordPairLength, garbage, offset, Followed(ipnum), depth + 1)
      decreases depth
    {
      var byteOffset := ByteOffset(recordPairLength, offset);
      if byteOffset > gi.size - recordPairLength {
        return 0, -1;
      }
      BitMaskSelects(ipnum, depth);
      var p := NextPointer(gi, recordPairLength, garbage, byteOffset, And(ipnum, BitMask(depth)) != 0);
      if p == None {
        return 0, -1;
      }
      if p.value >= gi.databaseSegments.value {
        return p.value, depth;
      }
      offset := p.value;
      depth := depth - 1;
    }
    return 0, -1;
  }

  /** _GeoIP_seek_record_gl. The pair length is that of the handle before the check for a new file;
      the precondition says that the walk then reads inside its buffers. */
  method SeekRecord(gi: GeoIP, os: System, ipnum: u64, gl: GeoIPLookup, garbage: StackBuffer) returns (x: u32)
    requires ModeFind(Checked(gi.View(), os.clock, os.file), 2 * gi.recordLength, garbage, 0, Followed(ipnum), 32).Some?
    modifies gi`database, gi`cache, gi`indexCache, gi`databaseSegments, gi`databaseType, gi`mtime,
             gi`size, gi`recordLength, gi`lastMtimeCheck, gi`netmask, gl
    ensures gi.View() == Checked(old(gi.View()), os.clock, os.file)
    ensures var a := ModeFind(gi.View(), 2 * old(gi.recordLength), garbage, 0, Followed(ipnum), 32).value;
            && (x == if a.Hit? then a.value else 0)
            && (if a.Hit? then gi.netmask == gl.netmask == 32 - a.free
                else gi.netmask == old(gi.netmask) && gl.netmask == old(gl.netmask))
  {
    hide Checked, Walkable, ModeFind, Followed;
    var recordPairLength := gi.recordLength * 2;
    CheckMtime(gi, os);
    var depth;
    x, depth := Walk(gi, recordPairLength, ipnum, garbage);
    if depth >= 0 {
      gl.netmask := 32 - depth;
      gi.netmask := 32 - depth;
    }
  }

  // ------------------------------------------------------------ a stale pair length

  /** Where a lookup reads nodes. */
  datatype Mode = Disk | FullCache | IndexCache

  predicate InMode(h: Handle, mode: Mode) {
    match mode
    case Disk => h.indexCache.None? && h.cache.None?
    case FullCache => h.indexCache.None? && h.cache.Some?
    case IndexCache => h.indexCache.Some?
  }

  /** The pair length is computed before a possible reload. In each of the three modes, the walk it
      then does is the plain walk of every file, for every address and stack content, exactly when the
      record length did not change. */
  lemma StaleStride(stride: nat, recordLength: nat, mode: Mode)
    requires (recordLength == 3 || recordLength == 4) && (stride == 6 || stride == 8)
    ensures stride == 2 * recordLength <==>
            forall h: Handle, garbage: StackBuffer, ip: u32 |
              && Ready(h) && h.recordLength == recordLength && InMode(h, mode) ::
              ModeFind(h, stride, garbage, 0, ip, 32) == Some(Lookup(PlainGrid(h), ip, 32))
  {
    if stride == 2 * recordLength {
      forall h: Handle, garbage: StackBuffer, ip: u32 | Ready(h) && h.recordLength == recordLength
        ensures ModeFind(h, stride, garbage, 0, ip, 32) == Some(Lookup(PlainGrid(h), ip, 32))
      {
        ReadyFinds(h, garbage, ip, 32);
      }
    } else {
      var garbage: StackBuffer := seq(MAX_PAIR_LENGTH, _ => 0);
      StaleExample(recordLength, mode, garbage);
      var h, ip: u32 := StaleHandle(recordLength, mode), 0;
      assert ModeFind(h, stride, garbage, 0, ip, 32) != Some(Lookup(PlainGrid(h), ip, 32));
    }
    hide Ready, ModeFind, Lookup, StaleHandle;
  }

  /** Two nodes of three-byte and of four-byte records; the first node leads to the second. */
  const SHORT_NODES: seq<byte> := [1, 0, 0, 1, 0, 0, 5, 0, 0, 5, 0, 0, 5, 0, 0, 0]
  const LONG_NODES: seq<byte> := [1, 0, 0, 0, 1, 0, 0, 0, 5, 0, 0, 0, 5, 0, 0, 0]

  /** A City or Organization file with those nodes and segment value 2, opened in a mode. */
  function StaleFile(recordLength: nat): seq<byte> {
    if recordLength == 3 then SHORT_NODES + FooterBytes(CITY_EDITION_REV1, 2)
    else LONG_NODES + FooterBytes(ORG_EDITION, 2)
  }

  function StaleHandle(recordLength: nat, mode: Mode): Handle
    requires recordLength == 3 || recordLength == 4
  {
    var bytes := StaleFile(recordLength);
    Handle(bytes,
           if mode.FullCache? then Some(bytes) else None,
           if mode.IndexCache? then Some(bytes[..4 * recordLength]) else None,
           Some(2),
           if recordLength == 3 then CITY_EDITION_REV1 else ORG_EDITION, 0,
           Flags(mode.FullCache?, true, mode.IndexCache?, false), |bytes|, recordLength, 0)
  }

  lemma StaleExample(recordLength: nat, mode: Mode, garbage: StackBuffer)
    requires recordLength == 3 || recordLength == 4
    ensures var h := StaleHandle(recordLength, mode);
            && Ready(h) && PlainGrid(h).Shaped() && InMode(h, mode)
            && Lookup(PlainGrid(h), 0, 32) == Hit(5, 30)
            && (recordLength == 3 ==> ModeFind(h, 8, garbage, 0, 0, 32) == Some(Hit(0x500, 30)))
            && (recordLength == 4 ==> ModeFind(h, 6, garbage, 0, 0, 32) == Some(Hit(0x5_0000, 30)))
  {
    StaleHandleReady(recordLength, mode);
    StaleFields(recordLength, mode);
    var h := StaleHandle(recordLength, mode);
    hide *;
    ReadyFinds(h, garbage, 0, 32);
    if recordLength == 3 {
      ShortWalks(h, garbage);
    } else {
      LongWalks(h, garbage);
    }
  }

  lemma ShortWalks(h: Handle, garbage: StackBuffer)
    requires Walkable(h, 8) && h.segment == Some(2) && h.recordLength == 3
    requires HoldsNodes(h, 4 * 3)
    requires h.database == StaleFile(3) && h.size == |h.database|
    ensures ModeFind(h, 6, garbage, 0, 0, 32) == Some(Hit(5, 30))
    ensures ModeFind(h, 8, garbage, 0, 0, 32) == Some(Hit(0x500, 30))
  {
    StaleBytes();
    hide StaleFile, ModeFind, Le;
    TwoNodeWalk(h, 6, garbage, 5, 12);
    TwoNodeWalk(h, 8, garbage, 0x500, 12);
  }

  lemma LongWalks(h: Handle, garbage: StackBuffer)
    requires Walkable(h, 8) && h.segment == Some(2) && h.recordLength == 4
    requires HoldsNodes(h, 4 * 4)
    requires h.database == StaleFile(4) && h.size == |h.database|
    ensures ModeFind(h, 8, garbage, 0, 0, 32) == Some(Hit(5, 30))
    ensures ModeFind(h, 6, garbage, 0, 0, 32) == Some(Hit(0x5_0000, 30))
  {
    StaleBytes();
    hide StaleFile, ModeFind, Le;
    TwoNodeWalk(h, 8, garbage, 5, 16);
    TwoNodeWalk(h, 6, garbage, 0x5_0000, 16);
  }

  lemma StaleFields(recordLength: nat, mode: Mode)
    requires recordLength == 3 || recordLength == 4
    ensures var h := StaleHandle(recordLength, mode);
            && Walkable(h, 6) && Walkable(h, 8) && h.segment == Some(2) && h.recordLength == recordLength
            && HoldsNodes(h, 4 * recordLength) && InMode(h, mode)
            && h.database == StaleFile(recordLength) && h.size == |h.database|
  {
    assert |StaleFile(recordLength)| == 23;
    hide StaleFile;
  }

  lemma StaleHandleReady(recordLength: nat, mode: Mode)
    requires recordLength == 3 || recordLength == 4
    ensures Ready(StaleHandle(recordLength, mode))
  {
    if recordLength == 3 {
      FooterRoundTrip(SHORT_NODES, CITY_EDITION_REV1, 2);
    } else {
      FooterRoundTrip(LONG_NODES, ORG_EDITION, 2);
    }
    hide StructureOf, FooterBytes;
  }

  lemma StaleBytes()
    ensures var s, l := StaleFile(3), StaleFile(4);
            && |s| == |l| == 23
            && Le(s[..3]) == 1 && Le(s[6..9]) == 5 && Le(s[8..11]) == 0x500
            && Le(l[..4]) == 1 && Le(l[8..12]) == 5 && Le(l[6..10]) == 0x5_0000
  {
    var s, l := StaleFile(3), StaleFile(4);
    assert s[..3] == [1, 0, 0] && s[6..9] == [5, 0, 0] && s[8..11] == [0, 5, 0];
    assert l[..4] == [1, 0, 0, 0] && l[8..12] == [5, 0, 0, 0] && l[6..10] == [0, 0, 5, 0];
    LeOf4([1, 0, 0, 0]);
    LeOf4([5, 0, 0, 0]);
    LeOf4([0, 0, 5, 0]);
    Le3Value([1, 0, 0]);
    Le3Value([5, 0, 0]);
    Le3Value([0, 5, 0]);
    hide Le;
  }

  lemma LeOf4(s: seq<byte>)
    requires |s| == 4 && s[3] == 0
    ensures Le(s) == s[0] as int + 256 * s[1] as int + 0x1_0000 * s[2] as int
  {
    assert s == s[..3] + [s[3]];
    LeSnoc(s[..3], s[3]);
    Le3Value(s[..3]);
  }

  /** The caches in use start with the first `held` bytes of the file. */
  predicate HoldsNodes(h: Handle, held: nat) {
    && held <= |h.database|
    && (h.cache.Some? ==> h.cache.value == h.database)
    && (h.indexCache.Some? ==> h.indexCache.value == h.database[..held])
  }

  /** From the first node's left half to the second's, which is a leaf. */
  lemma TwoNodeWalk(h: Handle, stride: nat, garbage: StackBuffer, leaf: nat, held: nat)
    requires Walkable(h, stride) && h.recordLength <= stride && h.segment == Some(2) && leaf >= 2
    requires HoldsNodes(h, held) && stride + h.recordLength <= held
    requires h.size == |h.database| >= 2 * stride
    requires Le(h.database[..h.recordLength]) == 1
    requires Le(h.database[stride..stride + h.recordLength]) == leaf
    ensures ModeFind(h, stride, garbage, 0, 0, 32) == Some(Hit(leaf, 30))
  {
    hide *;
    assert h.database[0..0 + h.recordLength] == h.database[..h.recordLength];
    LeftStep(h, stride, garbage, 0, 32, held);
    LeftStep(h, stride, garbage, 1, 31, held);
  }

  /** A step of the walk of address 0 at one of two nodes. */
  lemma LeftStep(h: Handle, stride: nat, garbage: StackBuffer, n: nat, d: nat, held: nat)
    requires Walkable(h, stride) && h.recordLength <= stride && h.segment == Some(2) && n <= 1 && d > 0
    requires HoldsNodes(h, held) && stride + h.recordLength <= held
    requires h.size == |h.database| >= 2 * stride
    ensures var at := if n == 0 then 0 else stride;
            var child := Le(h.database[at..at + h.recordLength]);
            ModeFind(h, stride, garbage, n, 0, d) ==
            if child >= 2 then Some(Hit(child, d - 1)) else ModeFind(h, stride, garbage, child, 0, d - 1)
  {
    hide NodeBuffer, Half, Bit, ByteOffset, Le, HoldsNodes;
    ZeroBit(d - 1);
    LeftHalf(h, stride, garbage, n, held);
  }

  lemma LeftHalf(h: Handle, stride: nat, garbage: StackBuffer, n: nat, held: nat)
    requires Walkable(h, stride) && h.recordLength <= stride && n <= 1
    requires HoldsNodes(h, held) && stride + h.recordLength <= held
    requires |h.database| >= 2 * stride
    ensures ByteOffset(stride, n) == if n == 0 then 0 else stride
    ensures var at := ByteOffset(stride, n);
            var r := NodeBuffer(h, stride, at, garbage);
            r.Buffer? && Half(r.bytes, h.recordLength, false) == Some(Le(h.database[at..at + h.recordLength]))
  {
    var at := ByteOffset(stride, n);
    assert at == if n == 0 then 0 else stride;
    hide ByteOffset, Le;
    FrontOfBuffer(h, stride, garbage, at, held);
  }

  lemma FrontOfBuffer(h: Handle, stride: nat, garbage: StackBuffer, at: nat, held: nat)
    requires h.recordLength <= stride <= MAX_PAIR_LENGTH && at + h.recordLength <= held && at + stride <= |h.database|
    requires HoldsNodes(h, held)
    ensures var r := NodeBuffer(h, stride, at, garbage);
            r.Buffer? && |r.bytes| >= h.recordLength &&
            r.bytes[..h.recordLength] == h.database[at..at + h.recordLength]
  {
    var rl := h.recordLength;
    if h.indexCache.Some? {
      PrefixSlice(h.database, held, at, rl);
    } else if h.cache.Some? {
      PrefixSlice(h.database, |h.database|, at, rl);
      assert h.database[..|h.database|] == h.database;
    } else {
      SubSlice(h.database, at, stride, 0, rl);
      assert (h.database[at..at + stride] + garbage[stride..])[..rl] == h.database[at..at + stride][..rl];
    }
  }

  lemma ZeroBit(k: nat)
    ensures !Bit(0, k)
  {
    ShrIsDiv(0, k);
    DivModUnique(0, Pow2(k), 0, 0);
  }
}
