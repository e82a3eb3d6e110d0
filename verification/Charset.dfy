/** ISO-8859-1 to UTF-8. */
module Charset {
  import opened Bits
  import opened Bytes

  /** UTF-8 of a code point below U+0800 (section 3 of RFC 3629). */
  function EncodeCodePoint(c: nat): seq<byte>
    requires c < 0x800
  {
    if c < 0x80 then [c] else [0xC0 + c / 64, 0x80 + c % 64]
  }

  /** Strict decoding of the one- and two-byte forms; None for anything malformed. */
  function DecodeUtf8(s: seq<byte>): Option<seq<nat>> {
    if s == [] then Some([])
    else if s[0] < 0x80 then Cons(s[0], DecodeUtf8(s[1..]))
    else if 0xC2 <= s[0] <= 0xDF && |s| >= 2 && 0x80 <= s[1] <= 0xBF then
      Cons(64 * (s[0] - 0xC0) as int + (s[1] - 0x80) as int, DecodeUtf8(s[2..]))
    else None
  }

  function Cons(c: nat, rest: Option<seq<nat>>): Option<seq<nat>> {
    if rest.None? then None else Some([c] + rest.value)
  }

  /** Each ISO-8859-1 byte is the code point of the same number. */
  function Utf8(text: seq<byte>): seq<byte> {
    if text == [] then [] else Utf8(text[..|text| - 1]) + EncodeCodePoint(text[|text| - 1])
  }

  function CodePoints(text: seq<byte>): (r: seq<nat>)
    ensures |r| == |text| && forall k | 0 <= k < |text| :: r[k] == text[k]
  {
    if text == [] then [] else [text[0] as nat] + CodePoints(text[1..])
  }

  /** Bytes that need two. */
  function HighBytes(text: seq<byte>): nat {
    if text == [] then 0 else HighBytes(text[..|text| - 1]) + if text[|text| - 1] >= 128 then 1 else 0
  }

  lemma {:induction false} Utf8Length(text: seq<byte>)
    ensures |Utf8(text)| == |text| + HighBytes(text)
  {
    if text != [] { Utf8Length(text[..|text| - 1]); }
  }

  lemma NoBytes()
    ensures HighBytes([]) == 0 && Utf8([]) == []
  {
  }

  /** One byte more of a text. */
  lemma NextByte(text: seq<byte>, n: nat)
    requires n < |text|
    ensures Utf8(text[..n + 1]) == Utf8(text[..n]) + EncodeCodePoint(text[n])
    ensures HighBytes(text[..n + 1]) == HighBytes(text[..n]) + if text[n] >= 128 then 1 else 0
  {
    assert text[..n + 1][..n] == text[..n];
    hide EncodeCodePoint;
  }

  lemma {:induction false} Utf8Front(b: byte, text: seq<byte>)
    ensures Utf8([b] + text) == EncodeCodePoint(b) + Utf8(text)
  {
    var s := [b] + text;
    var n := |text|;
    NextByte(s, n);
    NoBytes();
    Prepend(b, text);
    hide *;
    if n > 0 {
      var front, c := text[..n - 1], text[n - 1];
      NextByte(text, n - 1);
      Utf8Front(b, front);
      Associate(EncodeCodePoint(b), Utf8(front), EncodeCodePoint(c));
    }
  }

  lemma Prepend(b: byte, text: seq<byte>)
    ensures var s, n := [b] + text, |text|;
            && s[..n + 1] == s && text[..n] == text
            && if n == 0 then s[..n] == text == [] && s[n] == b
               else s[..n] == [b] + text[..n - 1] && s[n] == text[n - 1]
  {
  }

  /** Decoding the converted text gives back every input byte as a code point. */
  lemma {:induction false} DecodeConverted(text: seq<byte>)
    ensures DecodeUtf8(Utf8(text)) == Some(CodePoints(text))
  {
    if text != [] {
      var b := text[0];
      DecodeConverted(text[1..]);
      assert text == [b] + text[1..];
      Utf8Front(b, text[1..]);
      var rest := Utf8(text[1..]);
      DecodeFront(b, rest);
    }
  }

  lemma DecodeFront(b: byte, rest: seq<byte>)
    ensures DecodeUtf8(EncodeCodePoint(b) + rest) == Cons(b, DecodeUtf8(rest))
  {
    var e := EncodeCodePoint(b);
    var s := e + rest;
    if b < 0x80 {
      assert s[1..] == rest;
    } else {
      assert s[2..] == rest && s[0] == e[0] && s[1] == e[1];
      assert 64 * (b / 64) + b % 64 == b;
    }
  }

  lemma AndDouble(x: nat, mask: nat, h: nat, r: nat, m: nat)
    requires r <= 1 && x == 2 * h + r && mask == 2 * m + 1
    ensures And(x, mask) == 2 * And(h, m) + r
  {
    assert x / 2 == h && x % 2 == r;
    assert mask / 2 == m && mask % 2 == 1;
  }

  /** A mask of three low ones keeps the three low bits. */
  lemma AndLowOnes(x: nat, mask: nat, top: nat, m: nat, r2: nat, r1: nat, r0: nat)
    requires r2 <= 1 && r1 <= 1 && r0 <= 1
    requires x == 8 * top + 4 * r2 + 2 * r1 + r0 && mask == 8 * m + 7
    ensures And(x, mask) == 8 * And(top, m) + 4 * r2 + 2 * r1 + r0
  {
    hide And;
    var x2 := 2 * top + r2;
    var x1 := 2 * x2 + r1;
    AndDouble(x2, 2 * m + 1, top, r2, m);
    AndDouble(x1, 4 * m + 3, x2, r1, 2 * m + 1);
    AndDouble(x, mask, x1, r0, 4 * m + 3);
  }

  lemma SixBits(low: nat) returns (r5: nat, r4: nat, r3: nat, r2: nat, r1: nat, r0: nat)
    requires low < 64
    ensures r5 <= 1 && r4 <= 1 && r3 <= 1 && r2 <= 1 && r1 <= 1 && r0 <= 1
    ensures low == 32 * r5 + 16 * r4 + 8 * r3 + 4 * r2 + 2 * r1 + r0
  {
    var rest := low;
    r5 := if rest >= 32 then 1 else 0;
    rest := rest - 32 * r5;
    r4 := if rest >= 16 then 1 else 0;
    rest := rest - 16 * r4;
    r3 := if rest >= 8 then 1 else 0;
    rest := rest - 8 * r3;
    r2 := if rest >= 4 then 1 else 0;
    rest := rest - 4 * r2;
    r1 := if rest >= 2 then 1 else 0;
    r0 := rest - 2 * r1;
  }

  lemma TopBits(top: nat)
    requires top == 2 || top == 3
    ensures And(top, 2) == 2
  {
    assert And(2, 2) == 2 && And(3, 2) == 2;
  }

  lemma ClearInBits(top: nat, r5: nat, r4: nat, r3: nat, r2: nat, r1: nat, r0: nat)
    requires top == 2 || top == 3
    requires r5 <= 1 && r4 <= 1 && r3 <= 1 && r2 <= 1 && r1 <= 1 && r0 <= 1
    ensures var low := 32 * r5 + 16 * r4 + 8 * r3 + 4 * r2 + 2 * r1 + r0;
            And(64 * top + low, 0xBF) == 0x80 + low
  {
    TopBits(top);
    hide And;
    var mid := 8 * top + 4 * r5 + 2 * r4 + r3;
    AndLowOnes(mid, 0x17, top, 2, r5, r4, r3);
    AndLowOnes(8 * mid + 4 * r2 + 2 * r1 + r0, 0xBF, mid, 0x17, r2, r1, r0);
  }

  /** `c &= ~0x40` on a byte of 0x80 or more leaves a continuation byte. */
  lemma ClearBit6(b: byte)
    requires b >= 128
    ensures And(b, 0xBF) == 0x80 + b % 64
    ensures b / 64 == if b >= 192 then 3 else 2
  {
    hide And;
    var r5, r4, r3, r2, r1, r0 := SixBits(b % 64);
    ClearInBits(b / 64, r5, r4, r3, r2, r1, r0);
  }

  /** The first pass: the length of the result, its NUL included. */
  method SizePass(iso: seq<byte>) returns (len: nat)
    requires StrEnd(iso, 0) < |iso|
    ensures len == |Utf8(iso[..StrEnd(iso, 0)])| + 1
  {
    ghost var end := StrEnd(iso, 0);
    hide *;
    assert iso[..0] == [];
    Utf8Length(iso[..end]);
    NoBytes();
    len := 0;
    var t := 0;
    while iso[t] != 0
      invariant 0 <= t <= end && len == HighBytes(iso[..t])
      decreases end - t
    {
      NextByte(iso, t);
      if iso[t] >= 128 {
        len := len + 1;
      }
      t := t + 1;
    }
    len := len + t + 1;
  }

  /** The body of the second pass: one input byte, one or two output bytes. */
  method Emit(p: array<byte>, at: nat, b: byte) returns (t: nat)
    requires at + |EncodeCodePoint(b)| <= p.Length
    modifies p
    ensures t == at + |EncodeCodePoint(b)|
    ensures p[..t] == old(p[..at]) + EncodeCodePoint(b)
  {
    t := at;
    var c := b;
    if c >= 128 {
      ClearBit6(c);
      var lead: byte := 0xC2;
      if c >= 192 {
        lead := lead + 1;
      }
      p[t] := lead;
      t := t + 1;
      c := And(c, 0xBF);
    }
    p[t] := c;
    t := t + 1;
  }

  /** _GeoIP_iso_8859_1__utf8: a first pass sizes the buffer, a second fills it exactly. */
  method Iso88591ToUtf8(iso: seq<byte>) returns (p: array<byte>)
    requires StrEnd(iso, 0) < |iso|
    ensures fresh(p) && p[..] == Utf8(iso[..StrEnd(iso, 0)]) + [0]
  {
    ghost var end := StrEnd(iso, 0);
    ghost var total := Utf8(iso[..end]);
    hide *;
    NoBytes();
    assert iso[..0] == [];
    var len := SizePass(iso);
    p := new byte[len];
    var k, t := 0, 0;
    while iso[k] != 0
      invariant 0 <= k <= end
      invariant fresh(p) && p.Length == |total| + 1
      invariant t == |Utf8(iso[..k])| <= |total| && p[..t] == Utf8(iso[..k])
      decreases end - k
    {
      NextByte(iso, k);
      Utf8Mono(iso, k + 1, end);
      t := Emit(p, t, iso[k]);
      k := k + 1;
    }
    p[t] := 0;
  }

  lemma {:induction false} Utf8Mono(s: seq<byte>, i: nat, j: nat)
    requires i <= j <= |s|
    ensures |Utf8(s[..i])| <= |Utf8(s[..j])|
  {
    if i < j {
      Utf8Mono(s, i, j - 1);
      NextByte(s, j - 1);
      hide Utf8, EncodeCodePoint;
    }
  }
}
