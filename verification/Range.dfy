/** The range search: the largest interval of addresses around one that share its value. */
module RangeSearch {
  import opened Bits
  import opened Bytes
  import opened Trie
  import opened GeoIPDatabase
  import opened IPv4Lookup
  import opened Address

  const LAST: u32 := 0xFFFF_FFFF

  function Value(g: Grid, ip: nat): nat
    requires g.Shaped()
  {
    ValueOf(Lookup(g, ip, 32))
  }

  /** The ends of a range, found one address at a time. */
  function LeftEnd(g: Grid, ip: u32): u32
    requires g.Shaped()
    decreases ip
  {
    if ip == 0 || Value(g, ip - 1) != Value(g, ip) then ip else LeftEnd(g, ip - 1)
  }

  function RightEnd(g: Grid, ip: u32): u32
    requires g.Shaped()
    decreases LAST - ip
  {
    if ip == LAST || Value(g, ip + 1) != Value(g, ip) then ip else RightEnd(g, ip + 1)
  }

  /** [l, r] contains ip, has one value throughout, and cannot be extended. */
  predicate IsRange(g: Grid, ip: nat, l: nat, r: nat)
    requires g.Shaped()
  {
    && l <= ip <= r <= LAST
    && (forall x: nat | l <= x <= r :: Value(g, x) == Value(g, ip))
    && (l == 0 || Value(g, l - 1) != Value(g, ip))
    && (r == LAST || Value(g, r + 1) != Value(g, ip))
  }

  lemma {:induction false} LeftEndMeans(g: Grid, ip: u32)
    requires g.Shaped()
    ensures var l := LeftEnd(g, ip);
            && l <= ip && (forall x: nat | l <= x <= ip :: Value(g, x) == Value(g, ip))
            && (l == 0 || Value(g, l - 1) != Value(g, ip))
    decreases ip
  {
    if ip != 0 && Value(g, ip - 1) == Value(g, ip) { LeftEndMeans(g, ip - 1); }
  }

  lemma {:induction false} RightEndMeans(g: Grid, ip: u32)
    requires g.Shaped()
    ensures var r := RightEnd(g, ip);
            && ip <= r && (forall x: nat | ip <= x <= r :: Value(g, x) == Value(g, ip))
            && (r == LAST || Value(g, r + 1) != Value(g, ip))
    decreases LAST - ip
  {
    if ip != LAST && Value(g, ip + 1) == Value(g, ip) { RightEndMeans(g, ip + 1); }
  }

  /** The two ends are the one interval that is a range. */
  lemma RangeIsUnique(g: Grid, ip: u32, l: nat, r: nat)
    requires g.Shaped()
    ensures IsRange(g, ip, l, r) <==> l == LeftEnd(g, ip) && r == RightEnd(g, ip)
  {
    LeftEndMeans(g, ip);
    RightEndMeans(g, ip);
    hide Value, LeftEnd, RightEnd;
  }

  /** Ranges partition the address space: an address inside another's range has that very range,
      and any two ranges are identical or disjoint. */
  lemma RangesPartition(g: Grid, a: u32, b: u32)
    requires g.Shaped()
    ensures var l, r := LeftEnd(g, a), RightEnd(g, a);
            var l', r' := LeftEnd(g, b), RightEnd(g, b);
            && (l <= b <= r ==> l' == l && r' == r)
            && ((l' == l && r' == r) || r < l' || r' < l)
  {
    var l, r := LeftEnd(g, a), RightEnd(g, a);
    var l', r' := LeftEnd(g, b), RightEnd(g, b);
    RangeIsUnique(g, a, l, r);
    RangeIsUnique(g, b, l', r');
    hide Value, LeftEnd, RightEnd;
    if l <= b <= r {
      assert IsRange(g, b, l, r);
      RangeIsUnique(g, b, l, r);
    }
  }

  // ------------------------------------------------------------ jumping a netblock at a time

  lemma {:induction false} LeftSkip(g: Grid, lo: u32, hi: u32)
    requires g.Shaped() && lo <= hi
    requires forall x: nat | lo <= x <= hi :: Value(g, x) == Value(g, hi)
    ensures LeftEnd(g, hi) == LeftEnd(g, lo)
    decreases hi - lo
  {
    hide Value;
    if lo < hi {
      assert Value(g, hi - 1) == Value(g, hi);
      LeftSkip(g, lo, hi - 1);
    }
  }

  lemma {:induction false} RightSkip(g: Grid, lo: u32, hi: u32)
    requires g.Shaped() && lo <= hi
    requires forall x: nat | lo <= x <= hi :: Value(g, x) == Value(g, lo)
    ensures RightEnd(g, lo) == RightEnd(g, hi)
    decreases hi - lo
  {
    hide Value;
    if lo < hi {
      assert Value(g, lo + 1) == Value(g, lo);
      RightSkip(g, lo + 1, hi);
    }
  }

  /** `0xffffffff << (32 - netmask)`: shifted in 32 bits, kept in a 64-bit variable. */
  function MaskOf(netmask: nat): nat
    requires 1 <= netmask <= 32
  {
    Shl32(0xFFFF_FFFF, 32 - netmask)
  }

  /** `ip & mask`, the first address of the netblock. */
  function BlockStart(ip: nat, netmask: nat): nat
    requires 1 <= netmask <= 32
  {
    And(ip, MaskOf(netmask))
  }

  /** `0xffffffff & ~mask`, the distance to its last address. */
  function HostBits(netmask: nat): nat
    requires 1 <= netmask <= 32
  {
    And(0xFFFF_FFFF, Not64(MaskOf(netmask)))
  }

  /** `(ip & mask) + (0xffffffff & ~mask)`, the last address of the netblock. */
  function BlockEnd(ip: nat, netmask: nat): nat
    requires 1 <= netmask <= 32
  {
    BlockStart(ip, netmask) + HostBits(netmask)
  }

  /** The mask arithmetic is that of the block of size 2^(32 - netmask). */
  lemma MaskArithmetic(ip: u32, netmask: nat)
    requires 1 <= netmask <= 32
    ensures var p := Pow2(32 - netmask);
            && BlockStart(ip, netmask) == ip - ip % p
            && BlockEnd(ip, netmask) == ip - ip % p + p - 1
            && ip - ip % p + p <= 0x1_0000_0000
  {
    var k := 32 - netmask;
    MaskIs(k);
    HostMask(k);
    LastBlock(ip, k);
    Pow2Constants();
    AndHigh(ip, 32, k);
    hide And, Pow2, Shl32;
  }

  lemma MaskIs(k: nat)
    requires k <= 32
    ensures Pow2(k) <= 0x1_0000_0000 && Shl32(0xFFFF_FFFF, k) == 0x1_0000_0000 - Pow2(k)
  {
    Pow2Constants();
    Pow2Mono(k, 32);
    var p := Pow2(k);
    assert 0xFFFF_FFFF * p == (p - 1) * 0x1_0000_0000 + (0x1_0000_0000 - p);
    DivModUnique(0xFFFF_FFFF * p, 0x1_0000_0000, p - 1, 0x1_0000_0000 - p);
  }

  lemma HostMask(k: nat)
    requires k <= 32 && Pow2(k) <= 0x1_0000_0000
    ensures And(0xFFFF_FFFF, Not64(0x1_0000_0000 - Pow2(k))) == Pow2(k) - 1
  {
    var a := Not64(0x1_0000_0000 - Pow2(k));
    assert a == 0xFFFF_FFFF * 0x1_0000_0000 + (Pow2(k) - 1);
    DivModUnique(a, 0x1_0000_0000, 0xFFFF_FFFF, Pow2(k) - 1);
    Pow2Constants();
    AndLow(a, 32);
    AndComm(0xFFFF_FFFF, a);
    hide And, Pow2;
  }

  lemma LastBlock(ip: u32, k: nat)
    requires k <= 32
    ensures ip - ip % Pow2(k) + Pow2(k) <= 0x1_0000_0000
  {
    Pow2Constants();
    Pow2Add(k, 32 - k);
    hide Pow2;
    BlockInside(ip, Pow2(k), Pow2(32 - k));
  }

  lemma BlockInside(ip: nat, p: nat, m: nat)
    requires p > 0 && ip < p * m
    ensures ip - ip % p + p <= p * m
  {
    var q := ip / p;
    assert ip == q * p + ip % p;
    if q >= m {
      MulMono(m, q, p);
    } else {
      MulMono(q + 1, m, p);
    }
  }

  /** The netblock of an address that hits, with the answer every address in it shares. */
  lemma Netblock(g: Grid, ip: u32)
    requires g.Shaped() && Lookup(g, ip, 32).Hit?
    ensures var a := Lookup(g, ip, 32);
            && a.free < 32
            && var s := BlockStart(ip, 32 - a.free);
            var e := BlockEnd(ip, 32 - a.free);
            && s <= ip <= e <= LAST
            && forall x: nat | s <= x <= e :: Value(g, x) == a.value
  {
    var a := Lookup(g, ip, 32);
    HitRange(g, 0, ip, 32);
    MaskArithmetic(ip, 32 - a.free);
    hide BlockStart, BlockEnd, Find, Tree;
    var p := Pow2(a.free);
    forall x: nat | ip - ip % p <= x < ip - ip % p + p
      ensures Value(g, x) == a.value
    {
      NetblockAnswers(g, 32, ip, x);
    }
  }

  /** One iteration of each loop keeps the value and the end it is looking for. */
  lemma LeftJump(g: Grid, left: u32)
    requires g.Shaped() && left > 0 && Value(g, left - 1) == Value(g, left)
    requires Lookup(g, left - 1, 32).Hit?
    ensures var n := 32 - Lookup(g, left - 1, 32).free;
            && 1 <= n <= 32
            && var next := BlockStart(left - 1, n);
            && next < left && Value(g, next) == Value(g, left)
            && LeftEnd(g, next) == LeftEnd(g, left)
  {
    hide *;
    Netblock(g, left - 1);
    var next := BlockStart(left - 1, 32 - Lookup(g, left - 1, 32).free);
    LeftSkip(g, next, left);
  }

  lemma RightJump(g: Grid, right: u32)
    requires g.Shaped() && right < LAST && Value(g, right + 1) == Value(g, right)
    requires Lookup(g, right + 1, 32).Hit?
    ensures var n := 32 - Lookup(g, right + 1, 32).free;
            && 1 <= n <= 32
            && var next := BlockEnd(right + 1, n);
            && right < next <= LAST && Value(g, next) == Value(g, right)
            && RightEnd(g, next) == RightEnd(g, right)
  {
    hide Value, BlockStart, BlockEnd, RightEnd, Lookup, Grid.Shaped;
    Netblock(g, right + 1);
    var next := BlockEnd(right + 1, 32 - Lookup(g, right + 1, 32).free);
    RightSkip(g, right, next);
  }

  lemma FirstBlock(g: Grid, ip: u32)
    requires g.Shaped() && Lookup(g, ip, 32).Hit?
    ensures var n := 32 - Lookup(g, ip, 32).free;
            && 1 <= n <= 32
            && var l := BlockStart(ip, n);
            var r := BlockEnd(ip, n);
            && l <= ip <= r <= LAST && Value(g, l) == Value(g, r) == Value(g, ip)
            && LeftEnd(g, l) == LeftEnd(g, ip) && RightEnd(g, r) == RightEnd(g, ip)
  {
    Netblock(g, ip);
    hide Value, BlockStart, BlockEnd, LeftEnd, RightEnd, Lookup;
    var n := 32 - Lookup(g, ip, 32).free;
    LeftSkip(g, BlockStart(ip, n), ip);
    RightSkip(g, ip, BlockEnd(ip, n));
  }

  // ------------------------------------------------------------ the world during a search

  /** What a lookup finds: the time, and the file behind the path. */
  datatype Sky = Sky(clock: int, file: Option<FileVersion>)

  /** The handle after k lookups, the first of which finds skies(0). */
  function HandleAt(h: Handle, skies: nat -> Sky, k: nat): Handle {
    if k == 0 then h else Checked(HandleAt(h, skies, k - 1), skies(k - 1).clock, skies(k - 1).file)
  }

  /** A lookup on h with the given pair length answers an address as the trie g does. */
  predicate AnswersOne(h: Handle, stride: nat, garbage: StackBuffer, ip: nat, g: Grid)
    requires g.Shaped()
  {
    ModeFind(h, stride, garbage, 0, ip, 32) == Some(Lookup(g, ip, 32))
  }

  ghost predicate AnswersAll(h: Handle, stride: nat, g: Grid)
    requires g.Shaped()
  {
    forall garbage: StackBuffer, ip: u32 :: AnswersOne(h, stride, garbage, ip, g)
  }

  /** Lookup k answers every address as the trie g does, whatever file it then reads. */
  ghost predicate AnswersAs(h: Handle, skies: nat -> Sky, k: nat, g: Grid)
    requires g.Shaped()
  {
    AnswersAll(HandleAt(h, skies, k + 1), 2 * HandleAt(h, skies, k).recordLength, g)
  }

  /** No lookup under this sky replaces the file of h. */
  predicate NothingNew(h: Handle, sky: Sky) {
    h.flags.checkCache && sky.file.Some? && sky.file.value.mtime != h.mtime ==>
      sky.file.value.mtime + 60 >= sky.clock
  }

  /** When the first lookup leaves a ready handle with its old record length and no later one finds a
      new file, all of them answer as the file the first one read, at whatever times they come. */
  lemma QuietSearch(h: Handle, skies: nat -> Sky)
    requires Ready(HandleAt(h, skies, 1)) && HandleAt(h, skies, 1).recordLength == h.recordLength
    requires forall k: nat | k >= 1 :: NothingNew(HandleAt(h, skies, 1), skies(k))
    ensures PlainGrid(HandleAt(h, skies, 1)).Shaped()
    ensures forall k: nat :: AnswersAs(h, skies, k, PlainGrid(HandleAt(h, skies, 1)))
  {
    var first := HandleAt(h, skies, 1);
    ReadyFacts(first);
    hide *;
    forall k: nat
      ensures AnswersAs(h, skies, k, PlainGrid(first))
    {
      QuietLookup(h, skies, k);
    }
  }

  lemma QuietLookup(h: Handle, skies: nat -> Sky, k: nat)
    requires Ready(HandleAt(h, skies, 1)) && HandleAt(h, skies, 1).recordLength == h.recordLength
    requires forall k: nat | k >= 1 :: NothingNew(HandleAt(h, skies, 1), skies(k))
    requires PlainGrid(HandleAt(h, skies, 1)).Shaped()
    ensures AnswersAs(h, skies, k, PlainGrid(HandleAt(h, skies, 1)))
  {
    var first, now := HandleAt(h, skies, 1), HandleAt(h, skies, k + 1);
    assert HandleAt(h, skies, 0) == h;
    hide Ready, Checked, Lookup, ModeFind;
    QuietHandle(h, skies, k + 1);
    if k > 0 {
      QuietHandle(h, skies, k);
    }
    assert Ready(now) && PlainGrid(now) == PlainGrid(first) by { SameButChecked(first, now); }
    hide HandleAt, PlainGrid;
    forall garbage: StackBuffer, ip: u32
      ensures AnswersOne(now, 2 * now.recordLength, garbage, ip, PlainGrid(first))
    {
      ReadyFinds(now, garbage, ip, 32);
    }
  }

  lemma SameButChecked(h: Handle, r: Handle)
    requires Ready(h) && r == h.(lastMtimeCheck := r.lastMtimeCheck)
    ensures Ready(r) && PlainGrid(r) == PlainGrid(h)
  {
  }

  lemma {:induction false} QuietHandle(h: Handle, skies: nat -> Sky, k: nat)
    requires k >= 1 && forall k: nat | k >= 1 :: NothingNew(HandleAt(h, skies, 1), skies(k))
    ensures var first, r := HandleAt(h, skies, 1), HandleAt(h, skies, k);
            r == first.(lastMtimeCheck := r.lastMtimeCheck)
  {
    if k > 1 {
      QuietHandle(h, skies, k - 1);
      assert NothingNew(HandleAt(h, skies, 1), skies(k - 1));
      hide Reloaded;
      assert HandleAt(h, skies, k) == Checked(HandleAt(h, skies, k - 1), skies(k - 1).clock, skies(k - 1).file);
    }
  }

  /** Any address with the value of one that hits, hits: a failed walk returns 0, which a leaf can
      only have when the segment value is 0, and then no walk fails. */
  lemma EqualValueHits(g: Grid, ip: nat, other: nat)
    requires g.Shaped() && Lookup(g, ip, 32).Hit? && Value(g, other) == Value(g, ip)
    ensures Lookup(g, other, 32).Hit?
  {
    HitRange(g, 0, ip, 32);
    if g.HasNode(0) {
      FindStep(g, 0, other, 32);
    } else {
      FindDead(g, 0, ip, 32);
    }
    hide Find, Tree, Grid.Child, Grid.HasNode;
  }

  /** Lookup k of a search, which finds skies(k), with a stack buffer of its own. */
  method SeekAt(gi: GeoIP, os: System, ip: u32, gl: GeoIPLookup, skies: nat -> Sky, k: nat,
                ghost h: Handle, ghost g: Grid) returns (x: u32)
    requires gi.View() == HandleAt(h, skies, k)
    requires g.Shaped() && AnswersAs(h, skies, k, g)
    modifies os, gi`database, gi`cache, gi`indexCache, gi`databaseSegments, gi`databaseType, gi`mtime,
             gi`size, gi`recordLength, gi`lastMtimeCheck, gi`netmask, gl
    ensures gi.View() == HandleAt(h, skies, k + 1)
    ensures x == Value(g, ip)
    ensures Lookup(g, ip, 32).Hit? ==> gi.netmask == gl.netmask == 32 - Lookup(g, ip, 32).free
  {
    var stackBuffer := new byte[MAX_PAIR_LENGTH];
    os.clock, os.file := skies(k).clock, skies(k).file;
    ghost var buffer: StackBuffer := stackBuffer[..];
    NextAnswer(h, skies, k, g, buffer, ip);
    ValueIs(g, ip);
    hide Checked, ModeFind, Lookup, Value, AnswersAs, HandleAt;
    x := SeekRecord(gi, os, ip, gl, stackBuffer[..]);
  }

  lemma NextAnswer(h: Handle, skies: nat -> Sky, k: nat, g: Grid, garbage: StackBuffer, ip: u32)
    requires g.Shaped() && AnswersAs(h, skies, k, g)
    ensures HandleAt(h, skies, k + 1) == Checked(HandleAt(h, skies, k), skies(k).clock, skies(k).file)
    ensures ModeFind(HandleAt(h, skies, k + 1), 2 * HandleAt(h, skies, k).recordLength, garbage, 0, ip, 32) ==
            Some(Lookup(g, ip, 32))
  {
    assert AnswersOne(HandleAt(h, skies, k + 1), 2 * HandleAt(h, skies, k).recordLength, garbage, ip, g);
    hide ModeFind, Lookup, Checked;
  }

  /** A lookup whose value is compared with that of `known`, an address that hits. */
  method SeekAgain(gi: GeoIP, os: System, ip: u32, target: u32, t: GeoIPLookup, skies: nat -> Sky, k: nat,
                   ghost h: Handle, ghost g: Grid, ghost known: nat) returns (same: bool)
    requires gi.View() == HandleAt(h, skies, k)
    requires g.Shaped() && AnswersAs(h, skies, k, g)
    requires Lookup(g, known, 32).Hit? && target == Value(g, known)
    modifies os, gi`database, gi`cache, gi`indexCache, gi`databaseSegments, gi`databaseType, gi`mtime,
             gi`size, gi`recordLength, gi`lastMtimeCheck, gi`netmask, t
    ensures gi.View() == HandleAt(h, skies, k + 1)
    ensures same == (target == Value(g, ip))
    ensures same ==> Lookup(g, ip, 32).Hit? && t.netmask == 32 - Lookup(g, ip, 32).free
  {
    hide *;
    var x := SeekAt(gi, os, ip, t, skies, k, h, g);
    if target == x {
      EqualValueHits(g, known, ip);
    }
    return target == x;
  }

  /** The loop that moves the left end down, a netblock at a time; its first lookup is number k. */
  method ExtendLeft(gi: GeoIP, os: System, start: u32, target: u32, t: GeoIPLookup, skies: nat -> Sky, k: nat,
                    ghost h: Handle, ghost g: Grid) returns (left: u32, next: nat)
    requires gi.View() == HandleAt(h, skies, k)
    requires g.Shaped() && forall i: nat :: AnswersAs(h, skies, i, g)
    requires Lookup(g, start, 32).Hit? && target == Value(g, start)
    modifies os, gi`database, gi`cache, gi`indexCache, gi`databaseSegments, gi`databaseType, gi`mtime,
             gi`size, gi`recordLength, gi`lastMtimeCheck, gi`netmask, t
    ensures gi.View() == HandleAt(h, skies, next)
    ensures left == LeftEnd(g, start)
  {
    left, next := start, k;
    hide *;
    while left != 0
      invariant gi.View() == HandleAt(h, skies, next) && target == Value(g, left)
      invariant LeftEnd(g, start) == LeftEnd(g, left)
      decreases left
    {
      var same := SeekAgain(gi, os, left - 1, target, t, skies, next, h, g, start);
      next := next + 1;
      if !same {
        EndsHere(g, left);
        break;
      }
      LeftJump(g, left);
      left := BlockStart(left - 1, t.netmask);
    }
    EndsHere(g, left);
  }

  /** The loop that moves the right end up, a netblock at a time. */
  method ExtendRight(gi: GeoIP, os: System, start: u32, target: u32, t: GeoIPLookup, skies: nat -> Sky, k: nat,
                     ghost h: Handle, ghost g: Grid) returns (right: u32, next: nat)
    requires gi.View() == HandleAt(h, skies, k)
    requires g.Shaped() && forall i: nat :: AnswersAs(h, skies, i, g)
    requires Lookup(g, start, 32).Hit? && target == Value(g, start)
    modifies os, gi`database, gi`cache, gi`indexCache, gi`databaseSegments, gi`databaseType, gi`mtime,
             gi`size, gi`recordLength, gi`lastMtimeCheck, gi`netmask, t
    ensures gi.View() == HandleAt(h, skies, next)
    ensures right == RightEnd(g, start)
  {
    right, next := start, k;
    hide AnswersAs, HandleAt, Checked, Lookup, Value, LeftEnd, RightEnd, BlockStart, BlockEnd, Grid.Shaped;
    while right != LAST
      invariant gi.View() == HandleAt(h, skies, next) && target == Value(g, right)
      invariant RightEnd(g, start) == RightEnd(g, right)
      decreases LAST - right
    {
      var same := SeekAgain(gi, os, right + 1, target, t, skies, next, h, g, start);
      next := next + 1;
      if !same {
        EndsHere(g, right);
        break;
      }
      RightJump(g, right);
      right := BlockEnd(right + 1, t.netmask);
    }
    EndsHere(g, right);
  }

  /** Where the loops stop. */
  lemma EndsHere(g: Grid, end: u32)
    requires g.Shaped()
    ensures end == 0 || Value(g, end - 1) != Value(g, end) ==> LeftEnd(g, end) == end
    ensures end == LAST || Value(g, end + 1) != Value(g, end) ==> RightEnd(g, end) == end
  {
    hide Value;
  }

  lemma ValueIs(g: Grid, ip: nat)
    requires g.Shaped()
    ensures Value(g, ip) == ValueOf(Lookup(g, ip, 32))
  {
  }

  lemma BlockHits(g: Grid, ip: u32)
    requires g.Shaped() && Lookup(g, ip, 32).Hit?
    ensures var n := 32 - Lookup(g, ip, 32).free;
            && 1 <= n <= 32
            && Lookup(g, BlockStart(ip, n), 32).Hit? && Lookup(g, BlockEnd(ip, n), 32).Hit?
  {
    FirstBlock(g, ip);
    var n := 32 - Lookup(g, ip, 32).free;
    hide Value, BlockStart, BlockEnd, LeftEnd, RightEnd, Lookup;
    EqualValueHits(g, ip, BlockStart(ip, n));
    EqualValueHits(g, ip, BlockEnd(ip, n));
  }

  /** GeoIP_range_by_ip_gl, under the skies its lookups find: when they all answer as one trie does,
      the result is the range in that trie. */
  method RangeByIp(gi: GeoIP, os: System, addr: Option<string>, gl: GeoIPLookup, skies: nat -> Sky, ghost g: Grid)
    returns (ret: Option<(array<char>, array<char>)>, ghost lookups: nat)
    requires g.Shaped()
    requires addr.Some? ==> forall k: nat :: AnswersAs(gi.View(), skies, k, g)
    requires addr.Some? ==> Lookup(g, AddressOf(addr.value), 32).Hit?
    modifies os, gi`database, gi`cache, gi`indexCache, gi`databaseSegments, gi`databaseType, gi`mtime,
             gi`size, gi`recordLength, gi`lastMtimeCheck, gi`netmask, gl
    ensures addr.None? ==> ret.None? && lookups == 0
    ensures gi.View() == HandleAt(old(gi.View()), skies, lookups)
    ensures addr.Some? ==>
              && ret.Some?
              && var ip := AddressOf(addr.value);
              && var (first, last) := ret.value;
              && CString(first, Dotted(LeftEnd(g, ip))) && CString(last, Dotted(RightEnd(g, ip)))
              && gi.netmask == gl.netmask == 32 - Lookup(g, ip, 32).free
  {
    hide Checked, AnswersAs, Lookup, Value, LeftEnd, RightEnd, BlockStart, BlockEnd, AddressOf, Dotted,
         Grid.Shaped, CString;
    if addr.None? {
      return None, 0;
    }
    ghost var h := gi.View();
    var ipnum := AddrToNum(addr.value);
    assert AnswersAs(h, skies, 0, g);
    var target := SeekAt(gi, os, ipnum, gl, skies, 0, h, g);
    hide HandleAt;
    var origNetmask := gl.netmask;
    FirstBlock(g, ipnum);
    var left := BlockStart(ipnum, origNetmask);
    var right := BlockEnd(ipnum, origNetmask);

    BlockHits(g, ipnum);
    var t := new GeoIPLookup();
    var next;
    left, next := ExtendLeft(gi, os, left, target, t, skies, 1, h, g);
    var first := NumToAddr(left);
    right, next := ExtendRight(gi, os, right, target, t, skies, next, h, g);
    var last := NumToAddr(right);
    gi.netmask := origNetmask;
    return Some((first, last)), next;
  }
}
