/** IPv4 address text: parsing and printing. A C string is the text before its NUL. */
module Address {
  import opened Bits
  import opened Bytes

  const WRAP := 0x1_0000_0000

  /** The dot-separated fields of a text; there is always at least one. */
  function Fields(s: string): (f: seq<string>)
    ensures |f| >= 1
  {
    if s == "" then [""]
    else
      var f, c := Fields(s[..|s| - 1]), s[|s| - 1];
      if c == '.' then f + [""] else f[..|f| - 1] + [f[|f| - 1] + [c]]
  }

  predicate Digit(c: char) { '0' <= c <= '9' }

  predicate AllDigits(f: string) { forall k | 0 <= k < |f| :: Digit(f[k]) }

  /** The decimal value of a digit string; the empty string counts as 0. */
  function DecValue(f: string): nat
    requires AllDigits(f)
  {
    if f == "" then 0 else 10 * DecValue(f[..|f| - 1]) + (f[|f| - 1] as int - '0' as int)
  }

  /** A field the parser accepts: its value is only ever known modulo 2^32. */
  predicate Octet(f: string) {
    AllDigits(f) && Wrapped(DecValue(f)) <= 255
  }

  /** A value kept in an unsigned int. */
  function Wrapped(n: nat): u32 {
    n % WRAP
  }

  predicate Octets(f: seq<string>) {
    forall k | 0 <= k < |f| :: Octet(f[k])
  }

  /** Base-256 value of a list of octets, most significant first. */
  function Base256(f: seq<string>): nat
    requires Octets(f)
  {
    if f == [] then 0
    else 256 * Base256(f[..|f| - 1]) + OctetAt(f, |f| - 1)
  }

  function OctetAt(f: seq<string>, k: nat): (v: nat)
    requires Octets(f) && k < |f|
    ensures v <= 255
  {
    assert Octet(f[k]);
    Wrapped(DecValue(f[k]))
  }

  lemma {:induction false} Base256Bound(f: seq<string>)
    requires Octets(f)
    ensures Base256(f) < Pow2(8 * |f|)
  {
    if f != [] {
      var n := |f| - 1;
      Base256Bound(f[..n]);
      Pow2Add(8, 8 * n);
      assert Pow2(8) == 256 && 8 + 8 * n == 8 * |f|;
    }
  }

  /** What a text denotes: four accepted fields give their base-256 value, anything else 0. */
  function AddressOf(s: string): u32 {
    var f := Fields(s);
    if |f| == 4 && Octets(f) then
      Base256Bound(f);
      Pow2Constants();
      Base256(f)
    else 0
  }

  // ------------------------------------------------------------ splitting

  lemma FieldsOfMore(s: string)
    requires s != ""
    ensures var f, c := Fields(s[..|s| - 1]), s[|s| - 1];
            Fields(s) == if c == '.' then f + [""] else f[..|f| - 1] + [f[|f| - 1] + [c]]
  {
  }

  /** Later text only extends the last field and appends fields. */
  lemma {:induction false} FieldsExtend(t: string, u: string)
    ensures var f, g := Fields(t), Fields(t + u);
            var n := |f| - 1;
            |g| > n && f[..n] == g[..n] && f[n] <= g[n]
    decreases |u|
  {
    if u == "" {
      assert t + u == t;
    } else {
      assert (t + u)[..|t + u| - 1] == t + u[..|u| - 1];
      FieldsOfMore(t + u);
      hide Fields;
      FieldsExtend(t, u[..|u| - 1]);
    }
  }

  lemma {:induction false} FieldsAppend(t: string, f: string)
    requires '.' !in f
    ensures Fields(t + "." + f) == Fields(t) + [f]
  {
    var s := t + "." + f;
    if f == "" {
      assert s[..|s| - 1] == t;
    } else {
      FieldsAppend(t, f[..|f| - 1]);
      assert s[..|s| - 1] == t + "." + f[..|f| - 1];
      assert f[..|f| - 1] + [f[|f| - 1]] == f;
    }
  }

  lemma {:induction false} SingleField(f: string)
    requires '.' !in f
    ensures Fields(f) == [f]
  {
    if f != "" {
      SingleField(f[..|f| - 1]);
      assert f[..|f| - 1] + [f[|f| - 1]] == f;
    }
  }

  function Join(f: seq<string>): string
    requires |f| >= 1
  {
    if |f| == 1 then f[0] else Join(f[..|f| - 1]) + "." + f[|f| - 1]
  }

  lemma JoinSnoc(f: seq<string>, x: string)
    requires |f| >= 1
    ensures Join(f + [x]) == Join(f) + "." + x
  {
    assert (f + [x])[..|f|] == f;
  }

  /** Splitting loses nothing. */
  lemma {:induction false} JoinFields(s: string)
    ensures Join(Fields(s)) == s
  {
    if s != "" {
      var t, c := s[..|s| - 1], s[|s| - 1];
      var f := Fields(t);
      var n := |f| - 1;
      FieldsOfMore(s);
      hide *;
      JoinFields(t);
      SplitLast(s);
      if c == '.' {
        JoinSnoc(f, "");
        NoText(t + ".");
      } else {
        SplitLast(f);
        JoinLonger(f[..n], f[n], c);
      }
    }
  }

  lemma NoText(s: string)
    ensures s + "" == s
  {
  }

  /** A character more in the last field. */
  lemma JoinLonger(front: seq<string>, last: string, c: char)
    ensures Join(front + [last + [c]]) == Join(front + [last]) + [c]
  {
    if front == [] {
      assert front + [last] == [last] && front + [last + [c]] == [last + [c]];
    } else {
      hide *;
      JoinSnoc(front, last);
      JoinSnoc(front, last + [c]);
      Associate(Join(front) + ".", last, [c]);
    }
  }

  // ------------------------------------------------------------ parsing

  lemma NextDigit(octet: nat, value: nat, d: nat)
    requires octet == Wrapped(value)
    ensures Wrapped(10 * octet + d) == Wrapped(10 * value + d)
  {
    var q := value / WRAP;
    var r := 10 * octet + d;
    assert 10 * value + d == (10 * q) * WRAP + r;
    DivModUnique(10 * value + d, WRAP, 10 * q + r / WRAP, r % WRAP);
  }

  /** What the parsing loop knows after reading t without rejecting it. */
  predicate Parsed(t: string, i: int, octet: nat, ipnum: nat) {
    FieldsParsed(Fields(t), i, octet, ipnum)
  }

  predicate FieldsParsed(f: seq<string>, i: int, octet: nat, ipnum: nat) {
    |f| >= 1 &&
    var done, last := f[..|f| - 1], f[|f| - 1];
    && i == 4 - |f|
    && Octets(done)
    && AllDigits(last)
    && octet == Wrapped(DecValue(last))
    && ipnum < 0x1_0000_0000_0000_0000
    && (|f| <= 4 ==> ipnum == Base256(done))
  }

  /** `ipnum <<= 8; ipnum += octet` in 64 bits: exact below 2^24. */
  method PushOctet(ipnum: nat, octet: nat) returns (r: nat)
    ensures r < 0x1_0000_0000_0000_0000
    ensures ipnum < 0x100_0000 && octet <= 255 ==> r == 256 * ipnum + octet
  {
    Pow2Constants();
    if ipnum < 0x100_0000 && octet <= 255 {
      DivModUnique(ipnum * 256, 0x1_0000_0000_0000_0000, 0, ipnum * 256);
      DivModUnique(ipnum * 256 + octet, 0x1_0000_0000_0000_0000, 0, ipnum * 256 + octet);
    }
    r := Shl64(ipnum, 8);
    r := (r + octet) % 0x1_0000_0000_0000_0000;
  }

  /** A further octet multiplies the value so far by 256; three octets stay below 2^24. */
  lemma OneMoreOctet(f: seq<string>, last: string)
    requires Octets(f) && Octet(last)
    ensures Octets(f + [last])
    ensures Base256(f + [last]) == 256 * Base256(f) + Wrapped(DecValue(last))
    ensures |f| <= 3 ==> Base256(f) < 0x100_0000
  {
    var g := f + [last];
    forall k | 0 <= k < |g| ensures Octet(g[k]) {
      if k < |f| { assert Octet(f[k]); }
    }
    assert g[..|f|] == f;
    if |f| <= 3 {
      Base256Bound(f);
      Pow2Mono(8 * |f|, 24);
      Pow2Constants();
    }
  }

  lemma NothingParsed()
    ensures Parsed("", 3, 0, 0)
  {
  }

  lemma AfterDot(t: string, i: int, octet: nat, ipnum: nat, next: nat)
    requires Parsed(t, i, octet, ipnum) && octet <= 255
    requires next < 0x1_0000_0000_0000_0000
    requires ipnum < 0x100_0000 ==> next == 256 * ipnum + octet
    ensures Parsed(t + ".", i - 1, 0, next)
  {
    var f := Fields(t);
    var n := |f| - 1;
    assert (t + ".")[..|t|] == t;
    assert f == f[..n] + [f[n]] == (f + [""])[..n + 1];
    assert Octet(f[n]);
    OneMoreOctet(f[..n], f[n]);
  }

  lemma AfterDigit(t: string, c: char, i: int, octet: nat, ipnum: nat)
    requires Parsed(t, i, octet, ipnum) && '0' <= c <= '9'
    ensures Parsed(t + [c], i, Wrapped(10 * octet + (c as int - '0' as int)), ipnum)
  {
    var f := Fields(t);
    var n := |f| - 1;
    assert (t + [c])[..|t|] == t;
    assert Fields(t + [c]) == f[..n] + [f[n] + [c]];
    hide Fields, FieldsParsed, Wrapped;
    FieldLonger(f, c, i, octet, ipnum);
  }

  lemma FieldLonger(f: seq<string>, c: char, i: int, octet: nat, ipnum: nat)
    requires FieldsParsed(f, i, octet, ipnum) && '0' <= c <= '9'
    ensures FieldsParsed(f[..|f| - 1] + [f[|f| - 1] + [c]], i, Wrapped(10 * octet + (c as int - '0' as int)), ipnum)
  {
    var n := |f| - 1;
    hide Wrapped, DecValue, Octets, Base256;
    assert (f[..n] + [f[n] + [c]])[..n] == f[..n];
    DecValueSnoc(f[n], c);
    NextDigit(octet, DecValue(f[n]), c as int - '0' as int);
  }

  lemma DecValueSnoc(f: string, c: char)
    requires AllDigits(f) && Digit(c)
    ensures AllDigits(f + [c])
    ensures DecValue(f + [c]) == 10 * DecValue(f) + (c as int - '0' as int)
  {
    assert (f + [c])[..|f|] == f;
  }

  lemma RejectOctet(t: string, i: int, octet: nat, ipnum: nat, u: string)
    requires Parsed(t, i, octet, ipnum) && octet > 255
    ensures AddressOf(t + "." + u) == 0
  {
    var n := |Fields(t)| - 1;
    assert (t + ".")[..|t|] == t;
    assert Fields(t + ".")[n] == Fields(t)[n];
    FieldsExtend(t + ".", u);
    assert Fields(t + ".")[..n + 1][n] == Fields(t + "." + u)[..n + 1][n];
    assert !Octet(Fields(t + "." + u)[n]);
  }

  lemma RejectChar(t: string, c: char, u: string)
    requires c != '.' && !('0' <= c <= '9')
    ensures AddressOf(t + [c] + u) == 0
  {
    var n := |Fields(t)| - 1;
    assert (t + [c])[..|t|] == t;
    FieldsExtend(t + [c], u);
    var k := |Fields(t)[n]|;
    assert Fields(t + [c])[n][k] == c;
    assert Fields(t + [c] + u)[n][k] == c;
    assert !Octet(Fields(t + [c] + u)[n]);
  }

  /** `octet <<= 3; octet += t; octet += t; octet += c` multiplies by ten, modulo 2^32. */
  method PushDigit(t: u32, c: nat) returns (octet: u32)
    requires c <= 9
    ensures octet == Wrapped(10 * t + c)
  {
    ModAdd(t * 8, t, WRAP);
    ModAdd(9 * t, t, WRAP);
    ModAdd(10 * t, c, WRAP);
    octet := Wrapped(t * 8);
    octet := Wrapped(octet + t);
    octet := Wrapped(octet + t);
    octet := Wrapped(octet + c);
  }

  lemma ModAdd(a: nat, b: nat, m: nat)
    requires m > 0
    ensures (a % m + b) % m == (a + b) % m
  {
    var q, r := a / m, a % m + b;
    var q' := r / m;
    assert a + b == q * m + (q' * m + r % m) == (q + q') * m + r % m;
    DivModUnique(a + b, m, q + q', r % m);
  }

  lemma AtEnd(t: string, i: int, octet: nat, ipnum: nat)
    requires Parsed(t, i, octet, ipnum)
    ensures octet > 255 || i != 0 ==> AddressOf(t) == 0
    ensures octet <= 255 && i == 0 ==> ipnum < 0x100_0000 && AddressOf(t) == 256 * ipnum + octet
  {
    var f := Fields(t);
    if octet <= 255 && i == 0 {
      assert f == f[..3] + [f[3]];
      OneMoreOctet(f[..3], f[3]);
    } else if i == 0 {
      assert !Octet(f[3]);
    }
  }

  lemma SplitAt(s: string, k: nat)
    requires k < |s|
    ensures s == s[..k] + [s[k]] + s[k + 1..] && s[..k + 1] == s[..k] + [s[k]]
  {
  }

  /** One iteration, at character k. */
  lemma AtDot(s: string, k: nat, i: int, octet: nat, ipnum: nat, next: nat)
    requires k < |s| && s[k] == '.' && Parsed(s[..k], i, octet, ipnum)
    requires next < 0x1_0000_0000_0000_0000
    requires ipnum < 0x100_0000 && octet <= 255 ==> next == 256 * ipnum + octet
    ensures octet > 255 ==> AddressOf(s) == 0
    ensures octet <= 255 ==> Parsed(s[..k + 1], i - 1, 0, next)
  {
    SplitAt(s, k);
    hide Parsed, AddressOf;
    if octet > 255 {
      RejectOctet(s[..k], i, octet, ipnum, s[k + 1..]);
    } else {
      AfterDot(s[..k], i, octet, ipnum, next);
    }
  }

  lemma AtOther(s: string, k: nat, i: int, octet: nat, ipnum: nat)
    requires k < |s| && s[k] != '.' && Parsed(s[..k], i, octet, ipnum)
    ensures !('0' <= s[k] <= '9') ==> AddressOf(s) == 0
    ensures '0' <= s[k] <= '9' ==> Parsed(s[..k + 1], i, Wrapped(10 * octet + (s[k] as int - '0' as int)), ipnum)
  {
    SplitAt(s, k);
    hide Parsed, AddressOf, Wrapped;
    if '0' <= s[k] <= '9' {
      AfterDigit(s[..k], s[k], i, octet, ipnum);
    } else {
      RejectChar(s[..k], s[k], s[k + 1..]);
    }
  }

  /** GeoIP_addr_to_num: one pass over the characters, `octet` wrapping at 32 bits and
      `ipnum` at 64. */
  method AddrToNum(addr: string) returns (ipnum: nat)
    ensures ipnum == AddressOf(addr)
  {
    var octet: u32 := 0;
    var i: int := 3;
    ipnum := 0;
    var k := 0;
    NothingParsed();
    assert addr[..0] == "";
    hide *;
    while k < |addr|
      invariant 0 <= k <= |addr|
      invariant Parsed(addr[..k], i, octet, ipnum)
    {
      var c := addr[k] as int;
      if c == '.' as int {
        if octet > 255 {
          AtDot(addr, k, i, octet, ipnum, 0);
          return 0;
        }
        var next := PushOctet(ipnum, octet);
        AtDot(addr, k, i, octet, ipnum, next);
        ipnum := next;
        i := i - 1;
        octet := 0;
      } else {
        AtOther(addr, k, i, octet, ipnum);
        c := if c >= '0' as int then c - '0' as int else c - '0' as int + WRAP;
        if c > 9 {
          return 0;
        }
        octet := PushDigit(octet, c);
      }
      k := k + 1;
    }
    assert addr[..|addr|] == addr;
    AtEnd(addr, i, octet, ipnum);
    if octet > 255 || i != 0 {
      return 0;
    }
    ipnum := PushOctet(ipnum, octet);
  }

  // ------------------------------------------------------------ printing

  function DigitChar(d: nat): char
    requires d < 10
  {
    ('0' as int + d) as char
  }

  /** What `%d` prints for a non-negative number. */
  function Decimal(n: nat): string {
    if n < 10 then [DigitChar(n)] else Decimal(n / 10) + [DigitChar(n % 10)]
  }

  /** The dotted quad of the low 32 bits of n. */
  function Dotted(n: nat): string {
    Decimal(Byte(n, 3)) + "." + Decimal(Byte(n, 2)) + "." + Decimal(Byte(n, 1)) + "." + Decimal(Byte(n, 0))
  }

  function Byte(n: nat, k: nat): nat {
    Shr(n, 8 * k) % 256
  }

  lemma {:induction false} DecimalRoundTrip(n: nat)
    ensures AllDigits(Decimal(n)) && DecValue(Decimal(n)) == n
    ensures '.' !in Decimal(n) && Plain(Decimal(n))
  {
    if n >= 10 {
      DecimalRoundTrip(n / 10);
      DecValueSnoc(Decimal(n / 10), DigitChar(n % 10));
    } else {
      assert Decimal(n) == [] + [DigitChar(n)];
      DecValueSnoc("", DigitChar(n));
    }
  }

  /** No field of a printed address is empty or has a leading zero. */
  predicate Plain(f: string) {
    |f| == 1 || (|f| > 1 && f[0] != '0')
  }

  lemma DecimalSnoc(v: nat, d: nat)
    requires d < 10
    ensures v > 0 ==> Decimal(10 * v + d) == Decimal(v) + [DigitChar(d)]
    ensures Decimal(d) == [DigitChar(d)]
  {
    DivModUnique(10 * v + d, 10, v, d);
  }

  /** Plain digit strings are exactly what Decimal prints. */
  lemma {:induction false} PlainRoundTrip(f: string)
    requires AllDigits(f) && Plain(f)
    ensures Decimal(DecValue(f)) == f
    ensures f[0] != '0' ==> DecValue(f) > 0
  {
    var n := |f| - 1;
    assert Digit(f[n]);
    var d := f[n] as int - '0' as int;
    assert DigitChar(d) == f[n];
    assert f == f[..n] + [f[n]];
    DecValueSnoc(f[..n], f[n]);
    DecimalSnoc(DecValue(f[..n]), d);
    if n > 0 {
      PlainRoundTrip(f[..n]);
    } else {
      assert f[..0] == "";
    }
    hide DecValue, Decimal, DigitChar;
  }

  /** A dotted quad as num_to_addr writes it. */
  predicate Canonical(s: string) {
    var f := Fields(s);
    |f| == 4 && forall k | 0 <= k < 4 :: AllDigits(f[k]) && Plain(f[k]) && DecValue(f[k]) <= 255
  }

  lemma {:induction false} DecimalLength(n: nat)
    requires n < 1000
    ensures |Decimal(n)| <= 3
  {
    if n >= 100 {
      assert |Decimal(n / 10 / 10)| == 1;
    }
  }

  lemma QuadFields(a: string, b: string, c: string, d: string)
    requires '.' !in a && '.' !in b && '.' !in c && '.' !in d
    ensures Fields(a + "." + b + "." + c + "." + d) == [a, b, c, d]
  {
    SingleField(a);
    FieldsAppend(a, b);
    FieldsAppend(a + "." + b, c);
    FieldsAppend(a + "." + b + "." + c, d);
  }

  lemma DecimalField(v: nat)
    requires v <= 255
    ensures var f := Decimal(v);
            AllDigits(f) && Plain(f) && DecValue(f) == v && '.' !in f && |f| <= 3
  {
    DecimalRoundTrip(v);
    DecimalLength(v);
  }

  lemma DottedFields(n: nat)
    ensures Fields(Dotted(n)) ==
            [Decimal(Byte(n, 3)), Decimal(Byte(n, 2)), Decimal(Byte(n, 1)), Decimal(Byte(n, 0))]
    ensures Canonical(Dotted(n)) && |Dotted(n)| <= 15
  {
    DecimalField(Byte(n, 3));
    DecimalField(Byte(n, 2));
    DecimalField(Byte(n, 1));
    DecimalField(Byte(n, 0));
    hide Decimal, DecValue, Byte, Plain, AllDigits, Fields;
    QuadFields(Decimal(Byte(n, 3)), Decimal(Byte(n, 2)), Decimal(Byte(n, 1)), Decimal(Byte(n, 0)));
  }

  lemma OctetsValue(a: string, b: string, c: string, d: string)
    requires Octet(a) && Octet(b) && Octet(c) && Octet(d)
    ensures Octets([a, b, c, d])
    ensures Base256([a, b, c, d]) ==
            0x100_0000 * Wrapped(DecValue(a)) + 0x1_0000 * Wrapped(DecValue(b)) +
            256 * Wrapped(DecValue(c)) + Wrapped(DecValue(d))
  {
    hide Octet, Wrapped, DecValue;
    OneMoreOctet([], a);
    OneMoreOctet([a], b);
    OneMoreOctet([a, b], c);
    OneMoreOctet([a, b, c], d);
    assert [] + [a] == [a] && [a] + [b] == [a, b] && [a, b] + [c] == [a, b, c] && [a, b, c] + [d] == [a, b, c, d];
    assert Base256([]) == 0;
  }

  lemma BytesValue(n: nat)
    ensures n % 0x1_0000_0000 ==
            0x100_0000 * Byte(n, 3) + 0x1_0000 * Byte(n, 2) + 256 * Byte(n, 1) + Byte(n, 0)
  {
    ShrAdd(n, 8, 8);
    ShrAdd(n, 16, 8);
    ShrByte(n);
    ShrByte(Shr(n, 8));
    ShrByte(Shr(n, 16));
    ShrByte(Shr(n, 24));
    var q := Shr(n, 24) / 256;
    var r := 0x100_0000 * Byte(n, 3) + 0x1_0000 * Byte(n, 2) + 256 * Byte(n, 1) + Byte(n, 0);
    assert n == q * 0x1_0000_0000 + r;
    DivModUnique(n, 0x1_0000_0000, q, r);
  }

  lemma ShrByte(n: nat)
    ensures n == 256 * Shr(n, 8) + n % 256 && Shr(n, 0) == n
  {
    ShrIsDiv(n, 8);
    assert Pow2(8) == 256;
  }

  /** Printing then parsing keeps the low 32 bits: the number comes back iff it had no others. */
  lemma PrintThenParse(n: nat)
    ensures AddressOf(Dotted(n)) == n % 0x1_0000_0000
    ensures AddressOf(Dotted(n)) == n <==> n < 0x1_0000_0000
  {
    var a, b, c, d := Byte(n, 3), Byte(n, 2), Byte(n, 1), Byte(n, 0);
    DottedFields(n);
    ByteIsOctet(a);
    ByteIsOctet(b);
    ByteIsOctet(c);
    ByteIsOctet(d);
    BytesValue(n);
    if n < 0x1_0000_0000 { DivModUnique(n, 0x1_0000_0000, 0, n); }
    hide Byte, Decimal, Wrapped, Octet, DecValue, Dotted, Fields, Canonical, Base256, Octets;
    OctetsValue(Decimal(a), Decimal(b), Decimal(c), Decimal(d));
  }

  /** Four printed numbers of any size, joined by dots: accepted exactly when each is at most 255
      modulo 2^32, and then read modulo 2^32. So a field of 2^32 + 1 passes for 1. */
  lemma AnyFourNumbers(a: nat, b: nat, c: nat, d: nat)
    ensures AddressOf(Decimal(a) + "." + Decimal(b) + "." + Decimal(c) + "." + Decimal(d)) ==
            var w, x, y, z := a % 0x1_0000_0000, b % 0x1_0000_0000, c % 0x1_0000_0000, d % 0x1_0000_0000;
            if w <= 255 && x <= 255 && y <= 255 && z <= 255 then 0x100_0000 * w + 0x1_0000 * x + 256 * y + z
            else 0
  {
    WrappedIs(a);
    WrappedIs(b);
    WrappedIs(c);
    WrappedIs(d);
    DecimalRoundTrip(a);
    DecimalRoundTrip(b);
    DecimalRoundTrip(c);
    DecimalRoundTrip(d);
    FourFields(Decimal(a), Decimal(b), Decimal(c), Decimal(d));
    hide Decimal, DecValue, Wrapped, Fields, AddressOf, Plain;
  }

  lemma WrappedIs(n: nat)
    ensures Wrapped(n) == n % 0x1_0000_0000
  {
  }

  /** A field is accepted exactly when it has only digits (or nothing) and their value is at most 255
      modulo 2^32. */
  lemma OctetMeans(f: string)
    ensures Octet(f) <==>
            && (forall k | 0 <= k < |f| :: '0' <= f[k] <= '9')
            && AllDigits(f) && DecValue(f) % 0x1_0000_0000 <= 255
    ensures f == "" ==> Octet(f) && DecValue(f) == 0
  {
    hide DecValue;
    if f == "" {
      EmptyValue();
    }
  }

  lemma EmptyValue()
    ensures DecValue("") == 0
  {
  }

  /** A text without exactly three dots denotes 0. */
  lemma ThreeDots(s: string)
    ensures multiset(s)['.'] != 3 ==> AddressOf(s) == 0
  {
    FieldCount(s);
    hide Fields, Octet, Base256;
  }

  lemma {:induction false} FieldCount(s: string)
    ensures |Fields(s)| == multiset(s)['.'] + 1
  {
    if s != "" {
      FieldsOfMore(s);
      FieldCount(s[..|s| - 1]);
      SplitLast(s);
      hide Fields;
      assert multiset(s) == multiset(s[..|s| - 1]) + multiset{s[|s| - 1]};
    }
  }

  /** Four dot-free texts joined by dots. */
  lemma FourFields(a: string, b: string, c: string, d: string)
    requires '.' !in a && '.' !in b && '.' !in c && '.' !in d
    ensures AddressOf(a + "." + b + "." + c + "." + d) ==
            if Octet(a) && Octet(b) && Octet(c) && Octet(d) then
              0x100_0000 * (DecValue(a) % 0x1_0000_0000) + 0x1_0000 * (DecValue(b) % 0x1_0000_0000) +
              256 * (DecValue(c) % 0x1_0000_0000) + DecValue(d) % 0x1_0000_0000
            else 0
  {
    FourOctets(a, b, c, d);
    hide AddressOf, Fields, DecValue;
  }

  lemma FourOctets(a: string, b: string, c: string, d: string)
    requires '.' !in a && '.' !in b && '.' !in c && '.' !in d
    ensures AddressOf(a + "." + b + "." + c + "." + d) ==
            if Octet(a) && Octet(b) && Octet(c) && Octet(d) then
              0x100_0000 * Wrapped(DecValue(a)) + 0x1_0000 * Wrapped(DecValue(b)) +
              256 * Wrapped(DecValue(c)) + Wrapped(DecValue(d))
            else 0
  {
    hide Octet, DecValue, Wrapped, Fields, Base256;
    QuadFields(a, b, c, d);
    var f := [a, b, c, d];
    if Octet(a) && Octet(b) && Octet(c) && Octet(d) {
      OctetsValue(a, b, c, d);
    } else {
      assert !Octet(f[0]) || !Octet(f[1]) || !Octet(f[2]) || !Octet(f[3]);
    }
  }

  /** The text 4294967297.0.0.0 is read as 1.0.0.0. */
  lemma WrappedFieldAccepted()
    ensures AddressOf("4294967297.0.0.0") == 0x100_0000
  {
    AnyFourNumbers(0x1_0000_0001, 0, 0, 0);
    WrappedText();
    hide AddressOf, Decimal;
  }

  lemma WrappedText()
    ensures Decimal(0x1_0000_0001) + "." + Decimal(0) + "." + Decimal(0) + "." + Decimal(0) == "4294967297.0.0.0"
  {
    DecimalSnoc(4, 2);
    DecimalSnoc(42, 9);
    DecimalSnoc(429, 4);
    DecimalSnoc(4294, 9);
    DecimalSnoc(42949, 6);
    DecimalSnoc(429496, 7);
    DecimalSnoc(4294967, 2);
    DecimalSnoc(42949672, 9);
    DecimalSnoc(429496729, 7);
    assert Decimal(4) == "4" && Decimal(0) == "0";
    hide Decimal;
  }

  lemma ByteIsOctet(v: nat)
    requires v <= 255
    ensures Octet(Decimal(v)) && Wrapped(DecValue(Decimal(v))) == v
  {
    DecimalRoundTrip(v);
  }

  lemma FieldOctet(f: string)
    requires AllDigits(f) && Plain(f) && DecValue(f) <= 255
    ensures Octet(f) && Wrapped(DecValue(f)) == DecValue(f) && f == Decimal(DecValue(f))
  {
    PlainRoundTrip(f);
  }

  /** Parsing then printing gives the text back exactly for canonical dotted quads. */
  lemma ParseThenPrint(s: string)
    ensures Dotted(AddressOf(s)) == s <==> Canonical(s)
  {
    DottedFields(AddressOf(s));
    if Canonical(s) {
      var f := Fields(s);
      hide Dotted;
      FieldOctet(f[0]);
      FieldOctet(f[1]);
      FieldOctet(f[2]);
      FieldOctet(f[3]);
      var a, b, c, d := DecValue(f[0]), DecValue(f[1]), DecValue(f[2]), DecValue(f[3]);
      assert f == [f[0], f[1], f[2], f[3]];
      OctetsValue(f[0], f[1], f[2], f[3]);
      var n: nat := AddressOf(s);
      assert n == 0x100_0000 * a + 0x1_0000 * b + 256 * c + d;
      BytesOf(n, a, b, c, d);
      assert Fields(Dotted(n)) == f;
      JoinFields(s);
      JoinFields(Dotted(n));
    }
  }

  lemma BytesOf(n: nat, a: nat, b: nat, c: nat, d: nat)
    requires a <= 255 && b <= 255 && c <= 255 && d <= 255
    requires n == 0x100_0000 * a + 0x1_0000 * b + 256 * c + d
    ensures Byte(n, 3) == a && Byte(n, 2) == b && Byte(n, 1) == c && Byte(n, 0) == d
  {
    BytesValue(n);
    DivModUnique(n, 0x1_0000_0000, 0, n);
  }

  /** sprintf(at, "%d", n): the digits, then a NUL; returns the number of digits. */
  method Sprintf(buf: array<char>, at: nat, n: nat) returns (written: nat)
    requires n <= 255 && at + 4 <= buf.Length
    modifies buf
    ensures written == |Decimal(n)| <= 3
    ensures buf[..at + written] == old(buf[..at]) + Decimal(n) && buf[at + written] == '\0'
  {
    DecimalLength(n);
    var text := Decimal(n);
    written := |text|;
    for k := 0 to written
      invariant buf[..at + k] == old(buf[..at]) + text[..k]
    {
      buf[at + k] := text[k];
      assert buf[..at + k + 1] == buf[..at + k] + [text[k]];
    }
    buf[at + written] := '\0';
    assert buf[..at + written] == old(buf[..at]) + text;
  }

  /** The body of the printing loop: the digits, then a dot over the NUL unless it is the last. */
  method PutField(str: array<char>, at: nat, n: nat, dot: bool) returns (cur: nat)
    requires n <= 255 && at + 4 <= str.Length
    modifies str
    ensures at <= cur <= at + (if dot then 4 else 3)
    ensures str[..cur] == old(str[..at]) + Decimal(n) + if dot then "." else ""
    ensures !dot ==> str[cur] == '\0'
  {
    var written := Sprintf(str, at, n);
    cur := at + written;
    if dot {
      str[cur] := '.';
      cur := cur + 1;
      assert str[..cur] == str[..cur - 1] + ".";
    }
  }

  /** The first loop: the four low bytes, most significant first. */
  method SplitOctets(ipnum: nat) returns (octet: array<nat>)
    ensures fresh(octet)
    ensures octet[..] == [Byte(ipnum, 3), Byte(ipnum, 2), Byte(ipnum, 1), Byte(ipnum, 0)]
  {
    octet := new nat[4];
    var rest := ipnum;
    for i := 0 to 4
      invariant rest == Shr(ipnum, 8 * i)
      invariant forall k | 0 <= k < i :: octet[3 - k] == Byte(ipnum, k)
    {
      octet[3 - i] := rest % 256;
      ShrAdd(ipnum, 8 * i, 8);
      rest := Shr(rest, 8);
    }
    hide Byte;
    assert octet[3 - 3] == Byte(ipnum, 3) && octet[3 - 2] == Byte(ipnum, 2);
    assert octet[3 - 1] == Byte(ipnum, 1) && octet[3 - 0] == Byte(ipnum, 0);
  }

  /** A NUL-terminated text in a buffer. */
  predicate CString(buf: array<char>, text: string)
    reads buf
  {
    |text| < buf.Length && buf[..|text|] == text && buf[|text|] == '\0'
  }

  /** GeoIP_num_to_addr: writes the dotted quad and its NUL into a sixteen-byte buffer. */
  method NumToAddr(ipnum: nat) returns (str: array<char>)
    ensures fresh(str) && str.Length == 16 && CString(str, Dotted(ipnum))
    ensures |Dotted(ipnum)| <= 15 && str[..|Dotted(ipnum)|] == Dotted(ipnum) && str[|Dotted(ipnum)|] == '\0'
  {
    DottedFields(ipnum);
    QuadsIsDotted(ipnum);
    hide *;
    var octet := SplitOctets(ipnum);
    ghost var quad := octet[..];
    str := new char[16];
    var cur := 0;
    for i := 0 to 4
      invariant fresh(str) && str.Length == 16 && 0 <= cur <= 4 * i && cur <= 15
      invariant octet[..] == quad
      invariant str[..cur] == Quads(ipnum, i)
      invariant i == 4 ==> str[cur] == '\0'
    {
      QuadsStep(ipnum, i);
      assert octet[i] == quad[i] == Byte(ipnum, 3 - i);
      ByteBound(ipnum, 3 - i);
      cur := PutField(str, cur, octet[i], i < 3);
    }
    EndsIn(str, Dotted(ipnum));
  }

  lemma EndsIn(buf: array<char>, text: string)
    requires |text| < buf.Length && buf[..|text|] == text && buf[|text|] == '\0'
    ensures CString(buf, text)
  {
  }

  lemma ByteBound(n: nat, k: nat)
    ensures Byte(n, k) <= 255
  {
  }

  lemma QuadsStep(n: nat, i: nat)
    requires i < 4
    ensures Quads(n, 0) == ""
    ensures Quads(n, i + 1) == Quads(n, i) + Decimal(Byte(n, 3 - i)) + if i < 3 then "." else ""
  {
  }

  lemma QuadsIsDotted(n: nat)
    ensures Quads(n, 0) == "" && Quads(n, 4) == Dotted(n)
  {
    hide Byte, Decimal;
    var a, b, c, d := Decimal(Byte(n, 3)), Decimal(Byte(n, 2)), Decimal(Byte(n, 1)), Decimal(Byte(n, 0));
    assert Quads(n, 1) == a + ".";
    assert Quads(n, 2) == a + "." + b + ".";
    assert Quads(n, 3) == a + "." + b + "." + c + ".";
    assert Quads(n, 4) == a + "." + b + "." + c + "." + d;
  }

  /** The text after i rounds of the printing loop. */
  function Quads(n: nat, i: nat): string
    requires i <= 4
  {
    if i == 0 then "" else Quads(n, i - 1) + Decimal(Byte(n, 4 - i)) + if i < 4 then "." else ""
  }
}
