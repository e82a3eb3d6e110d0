/** Bytes, the file snapshot they are read from, and little-endian decoding. */
module Bytes {
  import opened Bits

  type byte = b: int | 0 <= b < 256
  type u32 = n: int | 0 <= n < 0x1_0000_0000
  type u64 = n: int | 0 <= n < 0x1_0000_0000_0000_0000

  datatype Option<+T> = None | Some(value: T)

  /** The value of a little-endian byte string of any length. */
  function Le(s: seq<byte>): nat {
    if s == [] then 0 else s[0] + 256 * Le(s[1..])
  }

  /** The little-endian byte string of a 24-bit number. */
  function Le3(n: nat): seq<byte>
    requires n < 0x100_0000
  {
    [n % 256, n / 256 % 256, n / 256 / 256]
  }

  /** pread on an unchanging file: None is the error return, a short read stops at the end. */
  function Pread(file: seq<byte>, count: nat, offset: int): (r: Option<seq<byte>>)
    ensures r.Some? && |r.value| == count && count > 0 ==>
              0 <= offset <= offset + count <= |file| && r.value == file[offset..offset + count]
    ensures r.Some? ==> |r.value| <= count
    ensures 0 <= offset <= offset + count <= |file| ==> r == Some(file[offset..offset + count])
  {
    if offset < 0 then None
    else if offset > |file| then Some([])
    else if offset + count > |file| then Some(file[offset..])
    else Some(file[offset..offset + count])
  }

  lemma SubSlice<T>(s: seq<T>, at: nat, n: nat, i: nat, j: nat)
    requires at + n <= |s| && i <= j <= n
    ensures s[at..at + n][i..j] == s[at + i..at + j]
  {
    var t := s[at..at + n];
    assert forall k | 0 <= k < j - i :: t[i..j][k] == t[i + k] == s[at + (i + k)];
  }

  lemma Associate<T>(a: seq<T>, b: seq<T>, c: seq<T>)
    ensures a + (b + c) == (a + b) + c
  {
  }

  lemma SplitLast<T>(s: seq<T>)
    requires s != []
    ensures s == s[..|s| - 1] + [s[|s| - 1]]
  {
  }

  lemma PrefixSlice<T>(s: seq<T>, m: nat, at: nat, n: nat)
    requires at + n <= m <= |s|
    ensures s[..m][at..][..n] == s[at..at + n]
  {
  }

  lemma {:induction false} LeBound(s: seq<byte>)
    ensures Le(s) < Pow2(8 * |s|)
  {
    if s != [] {
      LeBound(s[1..]);
      Pow2Add(8, 8 * |s[1..]|);
      assert Pow2(8) == 256;
      assert 8 + 8 * |s[1..]| == 8 * |s|;
    }
  }

  lemma Le3Value(s: seq<byte>)
    requires |s| == 3
    ensures Le(s) == s[0] as int + 256 * s[1] as int + 0x1_0000 * s[2] as int < 0x100_0000
  {
    assert s[1..][1..] == [s[2]];
    assert Le([s[2]]) == s[2];
  }

  /** Encoding a 24-bit number in three bytes and decoding it are inverse both ways. */
  lemma Le3RoundTrip(n: nat, s: seq<byte>)
    requires n < 0x100_0000 && |s| == 3
    ensures Le(Le3(n)) == n
    ensures Le(s) == n <==> s == Le3(n)
  {
    Le3Value(Le3(n));
    Le3Value(s);
    if Le(s) == n {
      DivModUnique(n, 256, s[1] as int + 256 * s[2] as int, s[0]);
      DivModUnique(n / 256, 256, s[2], s[1]);
    }
  }

  /** The end of the C string at `at`: its NUL, or the end of the buffer when it has none. */
  function StrEnd(buf: seq<byte>, at: nat): (e: nat)
    requires at <= |buf|
    ensures at <= e <= |buf|
    ensures forall k | at <= k < e :: buf[k] != 0
    ensures e < |buf| ==> buf[e] == 0
    decreases |buf| - at
  {
    if at == |buf| || buf[at] == 0 then at else StrEnd(buf, at + 1)
  }

  /** The general decoding loop: shift left by a byte, add the next lower byte. */
  method DecodeGeneral(buf: seq<byte>, end: nat, recordLength: nat) returns (x: u32)
    requires 1 <= recordLength <= 4 && recordLength <= end <= |buf|
    ensures x == Le(buf[end - recordLength..end])
  {
    var j, p := recordLength, end;
    x := 0;
    while j > 0
      invariant 0 <= j <= recordLength && p == end - recordLength + j
      invariant x == Le(buf[p..end])
    {
      LeFits(buf[p..end]);
      ShiftFits(x, 1);
      p := p - 1;
      assert buf[p..end][1..] == buf[p + 1..end];
      hide Shl32;
      x := Shl32(x, 8);
      x := x + buf[p];
      j := j - 1;
    }
  }

  /** Reads one half of a node pair. Record length 3 takes the unrolled path and every other
      length the general loop; both compute the little-endian value of the chosen half. */
  method DecodeHalf(buf: seq<byte>, recordLength: nat, right: bool) returns (x: u32)
    requires 1 <= recordLength <= 4 && (if right then 2 * recordLength else recordLength) <= |buf|
    ensures x == (if right then Le(buf[recordLength..2 * recordLength]) else Le(buf[..recordLength]))
  {
    hide Shl32;
    if right {
      if recordLength == 3 {
        Le3Value(buf[3..6]);
        ShiftFits(buf[3], 0);
        ShiftFits(buf[4], 1);
        ShiftFits(buf[5], 2);
        x := Shl32(buf[3 * 1 + 0], 0) + Shl32(buf[3 * 1 + 1], 8) + Shl32(buf[3 * 1 + 2], 16);
      } else {
        x := DecodeGeneral(buf, 2 * recordLength, recordLength);
      }
    } else {
      if recordLength == 3 {
        Le3Value(buf[..3]);
        ShiftFits(buf[0], 0);
        ShiftFits(buf[1], 1);
        ShiftFits(buf[2], 2);
        x := Shl32(buf[3 * 0 + 0], 0) + Shl32(buf[3 * 0 + 1], 8) + Shl32(buf[3 * 0 + 2], 16);
      } else {
        x := DecodeGeneral(buf, recordLength, recordLength);
      }
    }
  }

  /** A byte shifted left by up to two bytes, or three bytes by one, stays below 2^32. */
  lemma ShiftFits(b: nat, j: nat)
    requires (j <= 2 && b < 256) || (j <= 1 && b < 0x100_0000)
    ensures Shl32(b, j * 8) == b * Pow2(8 * j)
    ensures Pow2(8 * j) == (if j == 0 then 1 else if j == 1 then 256 else 0x1_0000)
  {
    Pow2Constants();
    assert j == 0 || j == 1 || j == 2;
    var p := Pow2(8 * j);
    MulMono(b, if j == 2 then 255 else 0xFF_FFFF, p);
    DivModUnique(b * p, 0x1_0000_0000, 0, b * p);
  }

  lemma LeFits(s: seq<byte>)
    requires |s| <= 3
    ensures Le(s) < 0x100_0000
  {
    LeBound(s);
    Pow2Constants();
    Pow2Mono(8 * |s|, 24);
  }

  lemma {:induction false} LeSnoc(s: seq<byte>, b: byte)
    ensures Le(s + [b]) == Le(s) + b * Pow2(8 * |s|)
  {
    if s == [] {
      assert s + [b] == [b];
    } else {
      LeSnoc(s[1..], b);
      assert (s + [b])[1..] == s[1..] + [b];
      Pow2Add(8, 8 * |s[1..]|);
      assert Pow2(8) == 256;
      assert 8 + 8 * |s[1..]| == 8 * |s|;
      assert b * (256 * Pow2(8 * |s[1..]|)) == 256 * (b * Pow2(8 * |s[1..]|));
    }
  }

  /** The summing loop used for segment values and city records:
      x += buf[j] << (j * 8) for j = 0, 1, 2. */
  method SumBytes(buf: seq<byte>) returns (x: nat)
    requires |buf| == 3
    ensures x == Le(buf)
  {
    x := 0;
    for j := 0 to 3
      invariant x == Le(buf[..j])
    {
      LeSnoc(buf[..j], buf[j]);
      assert buf[..j] + [buf[j]] == buf[..j + 1];
      ShiftFits(buf[j], j);
      hide Shl32;
      x := x + Shl32(buf[j], j * 8);
    }
    assert buf[..3] == buf;
  }
}
