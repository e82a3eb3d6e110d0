/** IPv6 lookups: bit selection in a sixteen-byte address, and the Teredo rewrite. */
module IPv6Lookup {
  import opened Bits
  import opened Bytes
  import opened Trie
  import opened GeoIPDatabase
  import opened IPv4Lookup

  type Address6 = s: seq<byte> | |s| == 16 witness seq(16, _ => 0)

  /** The number a big-endian byte string stands for. */
  function BigEndian(s: seq<byte>): nat {
    if s == [] then 0 else 256 * BigEndian(s[..|s| - 1]) + s[|s| - 1]
  }

  /** GEOIP_CHKBIT_V6: byte (127 - bit) >> 3, mask 1 << (~(127 - bit) & 7). */
  predicate ChkBit(bit: nat, addr: Address6)
    requires bit < 128
  {
    SelectorArithmetic(bit);
    And(addr[Shr(127 - bit, 3)], Shl64(1, And(Not64(127 - bit), 7))) != 0
  }

  /** Bit k of a big-endian string sits in byte k / 8 from the end. */
  lemma {:induction false} BigEndianBit(s: seq<byte>, k: nat)
    requires k < 8 * |s|
    ensures Bit(BigEndian(s), k) == Bit(s[|s| - 1 - k / 8], k % 8)
  {
    var h, b := BigEndian(s[..|s| - 1]), s[|s| - 1];
    assert BigEndian(s) == 256 * h + b;
    hide *;
    if k < 8 {
      Pow2Constants();
      LowBit(h, b, 8, k);
    } else {
      BigEndianBit(s[..|s| - 1], k - 8);
      HighBit(h, b, k);
      assert |s[..|s| - 1]| - 1 - (k - 8) / 8 == |s| - 1 - k / 8 && (k - 8) % 8 == k % 8;
    }
  }

  lemma HighBit(h: nat, b: byte, k: nat)
    requires k >= 8
    ensures Bit(256 * h + b, k) == Bit(h, k - 8)
  {
    ShrAdd(256 * h + b, 8, k - 8);
    ShrIsDiv(256 * h + b, 8);
    Pow2Constants();
    DivModUnique(256 * h + b, 256, h, b);
    hide Pow2, Shr;
  }

  lemma SelectorArithmetic(bit: nat)
    requires bit < 128
    ensures Shr(127 - bit, 3) == 15 - bit / 8
    ensures And(Not64(127 - bit), 7) == bit % 8
    ensures Shl64(1, bit % 8) == Pow2(bit % 8)
  {
    hide *;
    SelectorByte(bit);
    SelectorShift(bit);
    SelectorMask(bit % 8);
  }

  lemma SelectorByte(bit: nat)
    requires bit < 128
    ensures Shr(127 - bit, 3) == 15 - bit / 8
  {
    ShrIsDiv(127 - bit, 3);
    Pow2Constants();
    hide *;
    DivModUnique(127 - bit, 8, 15 - bit / 8, 7 - bit % 8);
  }

  lemma SelectorShift(bit: nat)
    requires bit < 128
    ensures And(Not64(127 - bit), 7) == bit % 8
  {
    AndLow(Not64(127 - bit), 3);
    Pow2Constants();
    hide And, Pow2;
    DivModUnique(Not64(127 - bit), 8, 0x1FFF_FFFF_FFFF_FFF0 + bit / 8, bit % 8);
  }

  lemma SelectorMask(r: nat)
    requires r < 8
    ensures Shl64(1, r) == Pow2(r)
  {
    Pow2Mono(r, 7);
    Pow2Constants();
    hide Pow2;
    DivModUnique(Pow2(r), 0x1_0000_0000_0000_0000, 0, Pow2(r));
  }

  /** The selector picks bit `bit` of the 128-bit number in network order. */
  lemma ChkBitSelects(bit: nat, addr: Address6)
    requires bit < 128
    ensures Shr(127 - bit, 3) < 16
    ensures ChkBit(bit, addr) == Bit(BigEndian(addr), bit)
  {
    SelectorArithmetic(bit);
    BigEndianBit(addr, bit);
    AndBit(addr[15 - bit / 8], bit % 8);
    hide And, Bit, Shr, Shl64, Pow2, Not64, BigEndian;
  }

  // ------------------------------------------------------------ Teredo

  /** 2001:0000::/32 */
  predicate HasTeredoPrefix(s: Address6) {
    s[0] == 0x20 && s[1] == 0x01 && s[2] == 0x00 && s[3] == 0x00
  }

  const ZEROS: seq<byte> := [0, 0, 0, 0, 0, 0, 0, 0, 0, 0, 0, 0]

  function Flip(b: byte): byte { 255 - b }

  function FlipAll(s: seq<byte>): (r: seq<byte>)
    ensures |r| == |s| && forall k | 0 <= k < |s| :: r[k] == 255 - s[k]
  {
    if s == [] then [] else [Flip(s[0])] + FlipAll(s[1..])
  }

  /** The rewritten address: the last four bytes, inverted, after twelve zero bytes. */
  function Teredo(s: Address6): Address6 {
    if HasTeredoPrefix(s) then ZEROS + FlipAll(s[12..]) else s
  }

  /** __GEOIP_PREPARE_TEREDO */
  method PrepareTeredo(v6: array<byte>)
    requires v6.Length == 16
    modifies v6
    ensures v6[..] == Teredo(old(v6[..]))
  {
    hide Xor, FlipAll;
    if v6[0] != 0x20 { return; }
    if v6[1] != 0x01 { return; }
    if v6[2] != 0x00 { return; }
    if v6[3] != 0x00 { return; }
    var i := 0;
    while i < 12
      invariant 0 <= i <= 12
      invariant forall k | 0 <= k < i :: v6[k] == 0
      invariant forall k | i <= k < 16 :: v6[k] == old(v6[k])
    {
      v6[i] := 0;
      i := i + 1;
    }
    while i < 16
      invariant 12 <= i <= 16
      invariant forall k | 0 <= k < 12 :: v6[k] == 0
      invariant forall k | 12 <= k < i :: v6[k] == 255 - old(v6[k])
      invariant forall k | i <= k < 16 :: v6[k] == old(v6[k])
    {
      XorByte(v6[i]);
      v6[i] := Xor(v6[i], 0xff);
      i := i + 1;
    }
    RewrittenBytes(old(v6[..]), v6[..]);
  }

  lemma XorByte(b: byte)
    ensures Xor(b, 0xff) == 255 - b
  {
    XorOnes(b, 8);
    assert Pow2(8) == 256;
  }

  lemma RewrittenBytes(s: Address6, r: Address6)
    requires HasTeredoPrefix(s)
    requires forall k | 0 <= k < 12 :: r[k] == 0
    requires forall k | 12 <= k < 16 :: r[k] == 255 - s[k]
    ensures r == Teredo(s)
  {
    assert r[..12] == ZEROS;
    assert r[12..] == FlipAll(s[12..]);
    assert r == r[..12] + r[12..];
  }

  /** A Teredo address (section 4 of RFC 4380): prefix, server, flags, port and the client's IPv4
      address, the last two with every bit inverted. */
  function TeredoAddress(server: seq<byte>, flags: seq<byte>, port: seq<byte>, client: seq<byte>): Address6
    requires |server| == 4 && |flags| == 2 && |port| == 2 && |client| == 4
  {
    [0x20, 0x01, 0x00, 0x00] + server + flags + FlipAll(port) + FlipAll(client)
  }

  /** The rewrite recovers the client address, and applying it twice changes nothing more. */
  lemma TeredoRewrite(server: seq<byte>, flags: seq<byte>, port: seq<byte>, client: seq<byte>)
    requires |server| == 4 && |flags| == 2 && |port| == 2 && |client| == 4
    ensures Teredo(TeredoAddress(server, flags, port, client)) == ZEROS + client
    ensures BigEndian(ZEROS + client) == BigEndian(client) ==
            0x100_0000 * client[0] as int + 0x1_0000 * client[1] as int + 256 * client[2] as int + client[3] as int
  {
    var head := [0x20, 0x01, 0x00, 0x00] + server + flags + FlipAll(port);
    assert TeredoAddress(server, flags, port, client) == head + FlipAll(client);
    hide *;
    TeredoHead(server, flags, FlipAll(port));
    RewriteTail(head, client);
    ClientNumber(client);
    FourBytes(client);
  }

  lemma FourBytes(s: seq<byte>)
    requires |s| == 4
    ensures BigEndian(s) ==
            0x100_0000 * s[0] as int + 0x1_0000 * s[1] as int + 256 * s[2] as int + s[3] as int
  {
    assert s[..3][..2] == s[..2] && s[..2][..1] == s[..1] && s[..1][..0] == [];
    assert BigEndian(s[..1]) == s[0];
    assert BigEndian(s[..2]) == 256 * BigEndian(s[..1]) + s[1];
    assert BigEndian(s[..3]) == 256 * BigEndian(s[..2]) + s[2];
    assert BigEndian(s) == 256 * BigEndian(s[..3]) + s[3];
  }

  lemma TeredoHead(server: seq<byte>, flags: seq<byte>, port: seq<byte>)
    requires |server| == 4 && |flags| == 2 && |port| == 2
    ensures var head := [0x20, 0x01, 0x00, 0x00] + server + flags + port;
            |head| == 12 && head[0] == 0x20 && head[1] == 0x01 && head[2] == 0x00 && head[3] == 0x00
  {
  }

  lemma RewriteTail(head: seq<byte>, client: seq<byte>)
    requires |head| == 12 && |client| == 4
    requires head[0] == 0x20 && head[1] == 0x01 && head[2] == 0x00 && head[3] == 0x00
    ensures Teredo(head + FlipAll(client)) == ZEROS + client
  {
    assert (head + FlipAll(client))[12..] == FlipAll(client);
    FlipTwice(client);
    hide FlipAll;
  }

  lemma ClientNumber(client: seq<byte>)
    requires |client| == 4
    ensures BigEndian(ZEROS + client) == BigEndian(client) < 0x1_0000_0000
  {
    LeadingZeros(ZEROS, client);
    BigEndianBound(client);
    Pow2Constants();
    hide BigEndian, Pow2;
  }

  lemma FlipTwice(s: seq<byte>)
    ensures FlipAll(FlipAll(s)) == s
  {
  }

  /** Exactly the addresses in 2001:0000::/32 are rewritten: every other one stays as it is. */
  lemma TeredoOnly(s: Address6)
    ensures s[..4] != [0x20, 0x01, 0x00, 0x00] ==> Teredo(s) == s
    ensures s[..4] == [0x20, 0x01, 0x00, 0x00] ==>
              && Teredo(s) != s
              && (forall k | 0 <= k < 12 :: Teredo(s)[k] == 0)
              && (forall k | 12 <= k < 16 :: Teredo(s)[k] == 255 - s[k])
  {
    assert s[..4] == [s[0], s[1], s[2], s[3]];
    if HasTeredoPrefix(s) {
      assert Teredo(s)[0] == 0;
    }
  }

  lemma TeredoIdempotent(s: Address6)
    ensures Teredo(Teredo(s)) == Teredo(s)
    ensures Teredo(s) != s <==> s[..4] == [0x20, 0x01, 0x00, 0x00]
  {
    TeredoOnly(s);
    TeredoOnly(Teredo(s));
    hide Teredo;
    assert s[..4] == [0x20, 0x01, 0x00, 0x00] ==> Teredo(s)[..4][0] == Teredo(s)[0] == 0;
  }

  /** An IPv6 lookup follows the address it is given, unless that is in 2001:0000::/32 and the
      rewrite is enabled: then it follows the inverted last four bytes. */
  lemma SoughtMeans(s: Address6, teredo: bool)
    ensures !teredo || s[..4] != [0x20, 0x01, 0x00, 0x00] ==> Sought(s, teredo) == BigEndian(s)
    ensures teredo && s[..4] == [0x20, 0x01, 0x00, 0x00] ==>
              Sought(s, teredo) ==
              0x100_0000 * (255 - s[12]) as int + 0x1_0000 * (255 - s[13]) as int +
              256 * (255 - s[14]) as int + (255 - s[15]) as int
  {
    TeredoOnly(s);
    if teredo && s[..4] == [0x20, 0x01, 0x00, 0x00] {
      var t := Teredo(s);
      assert t == t[..12] + t[12..];
      LeadingZeros(t[..12], t[12..]);
      FourBytes(t[12..]);
    }
    hide BigEndian, Teredo;
  }

  lemma {:induction false} LeadingZeros(z: seq<byte>, s: seq<byte>)
    requires forall k | 0 <= k < |z| :: z[k] == 0
    ensures BigEndian(z + s) == BigEndian(s)
    decreases |z| + |s|
  {
    if s != [] {
      assert (z + s)[..|z + s| - 1] == z + s[..|s| - 1];
      LeadingZeros(z, s[..|s| - 1]);
    } else if z != [] {
      assert z + s == z && z[..|z| - 1] + [] == z[..|z| - 1];
      LeadingZeros(z[..|z| - 1], []);
    }
  }

  lemma {:induction false} BigEndianBound(s: seq<byte>)
    ensures BigEndian(s) < Pow2(8 * |s|)
  {
    if s != [] {
      BigEndianBound(s[..|s| - 1]);
      Pow2Add(8, 8 * (|s| - 1));
      assert Pow2(8) == 256 && 8 + 8 * (|s| - 1) == 8 * |s|;
    }
  }

  /** The top of a walk depends only on the top bits. */
  lemma {:induction false} DescendTop(g: Grid, n: nat, a: nat, b: nat, d: nat, stop: nat)
    requires g.Shaped() && Shr(a, stop) == Shr(b, stop)
    ensures Descend(g, n, a, d, stop) == Descend(g, n, b, d, stop)
    decreases d
  {
    if d > stop && g.HasNode(n) {
      SameTopBits(a, b, stop, d - 1);
      var x := g.Child(n, Bit(a, d - 1));
      if x < g.segment { DescendTop(g, x, a, b, d - 1, stop); }
    }
  }

  /** The node of the netblock ::/96, if no leaf comes before it. */
  function Node96(g: Grid): Option<nat>
    requires g.Shaped()
  {
    Descend(g, 0, 0, 128, 32)
  }

  /** Looking a Teredo address up is looking ::a up for its client address a; when ::/96 is a
      node, that is the 32-bit walk of a from there, with 96 added to the netmask. */
  lemma TeredoLookup(g: Grid, server: seq<byte>, flags: seq<byte>, port: seq<byte>, client: seq<byte>)
    requires g.Shaped()
    requires |server| == 4 && |flags| == 2 && |port| == 2 && |client| == 4
    ensures var a := BigEndian(client);
            var answer := Lookup(g, BigEndian(Teredo(TeredoAddress(server, flags, port, client))), 128);
            && answer == Lookup(g, a, 128)
            && (Node96(g).Some? ==>
                  && answer == Find(Tree(g, Node96(g).value, 32), a, 32)
                  && (answer.Hit? ==> answer.free < 32 && 128 - answer.free == 96 + (32 - answer.free)))
  {
    TeredoRewrite(server, flags, port, client);
    var a := BigEndian(client);
    ShrIsDiv(a, 32);
    ShrIsDiv(0, 32);
    Pow2Constants();
    DivModUnique(a, 0x1_0000_0000, 0, a);
    DescendTop(g, 0, 0, a, 128, 32);
    if Node96(g).Some? {
      WalkSplits(g, 0, a, 128, 32);
      HitRange(g, Node96(g).value, a, 32);
    }
    hide Descend, Find, Tree, BigEndian, Teredo, TeredoAddress, Pow2, Shr;
  }

  /** The bit loop, as in the IPv4 lookup but over 128 bits. */
  method Walk6(gi: GeoIP, recordPairLength: nat, ipnum: Address6, garbage: StackBuffer) returns (x: u32, depth: int)
    requires ModeFind(gi.View(), recordPairLength, garbage, 0, BigEndian(ipnum), 128).Some?
    ensures var a := ModeFind(gi.View(), recordPairLength, garbage, 0, BigEndian(ipnum), 128).value;
            x == ValueOf(a) && depth == if a.Hit? then a.free else -1
  {
    ghost var ip := BigEndian(ipnum);
    ghost var h := gi.View();
    hide NodeBuffer, Half, Bit, ChkBit, BigEndian, ByteOffset;
    var offset: nat := 0;
    depth := 127;
    while depth >= 0
      invariant -1 <= depth <= 127
      invariant ModeFind(h, recordPairLength, garbage, 0, ip, 128) ==
                ModeFind(h, recordPairLength, garbage, offset, ip, depth + 1)
      decreases depth
    {
      var byteOffset := ByteOffset(recordPairLength, offset);
      if byteOffset > gi.size - recordPairLength {
        return 0, -1;
      }
      ChkBitSelects(depth, ipnum);
      var p := NextPointer(gi, recordPairLength, garbage, byteOffset, ChkBit(depth, ipnum));
      if p == None {
        return 0, -1;
      }
      if p.value >= gi.databaseSegments.value {
        return p.value, depth;
      }
      offset := p.value;
      depth := depth - 1;
    }
    return 0, -1;
  }

  /** The number an IPv6 lookup follows. */
  function Sought(ipnum: Address6, teredo: bool): nat {
    BigEndian(if teredo then Teredo(ipnum) else ipnum)
  }

  lemma SoughtPlain(s: Address6, teredo: bool)
    ensures !teredo || s[0] != 0x20 || s[1] != 0x01 || s[2] != 0x00 || s[3] != 0x00 ==>
              Sought(s, teredo) == BigEndian(s)
  {
    hide BigEndian;
  }

  /** The parameter, a structure passed by value, after its rewrite. */
  method Prepared(ipnum: Address6, teredo: bool) returns (v6: array<byte>)
    ensures fresh(v6) && v6.Length == 16 && BigEndian(v6[..]) == Sought(ipnum, teredo)
  {
    hide Teredo, BigEndian;
    v6 := new byte[16](i requires 0 <= i < 16 => ipnum[i]);
    assert v6[..] == ipnum;
    if teredo {
      PrepareTeredo(v6);
    }
  }

  /** _GeoIP_seek_record_v6_gl, with the same preconditions as the IPv4 lookup. */
  method SeekRecordV6(gi: GeoIP, os: System, ipnum: Address6, gl: GeoIPLookup, garbage: StackBuffer) returns (x: u32)
    requires ModeFind(Checked(gi.View(), os.clock, os.file), 2 * gi.recordLength, garbage, 0,
                      Sought(ipnum, gi.teredo), 128).Some?
    modifies gi`database, gi`cache, gi`indexCache, gi`databaseSegments, gi`databaseType, gi`mtime,
             gi`size, gi`recordLength, gi`lastMtimeCheck, gi`netmask, gl
    ensures gi.View() == Checked(old(gi.View()), os.clock, os.file)
    ensures !gi.teredo || ipnum[0] != 0x20 || ipnum[1] != 0x01 || ipnum[2] != 0x00 || ipnum[3] != 0x00 ==>
              Sought(ipnum, gi.teredo) == BigEndian(ipnum)
    ensures var a := ModeFind(gi.View(), 2 * old(gi.recordLength), garbage, 0, Sought(ipnum, gi.teredo), 128).value;
            && (x == if a.Hit? then a.value else 0)
            && (if a.Hit? then gi.netmask == gl.netmask == 128 - a.free
                else gi.netmask == old(gi.netmask) && gl.netmask == old(gl.netmask))
  {
    hide Checked, Walkable, ModeFind, Sought, Teredo, BigEndian;
    SoughtPlain(ipnum, gi.teredo);
    var recordPairLength := gi.recordLength * 2;
    CheckMtime(gi, os);
    var v6 := Prepared(ipnum, gi.teredo);
    var depth;
    x, depth := Walk6(gi, recordPairLength, v6[..], garbage);
    if depth >= 0 {
      gl.netmask := 128 - depth;
      gi.netmask := 128 - depth;
    }
  }
}
