/** The database index as an abstract binary trie, and lookups in it. */
module Trie {
  import opened Bits
  import opened Bytes

  /** How the index is laid out: node n is the `stride` bytes from stride * n, a left and a right
      pointer of `recordLength` bytes each; a pointer of at least `segment` is a leaf value.
      The library always means stride == 2 * recordLength, see `StaleStride` in the IPv4 lookup. */
  datatype Grid = Grid(bytes: seq<byte>, stride: nat, recordLength: nat, segment: nat) {
    predicate Shaped() {
      1 <= recordLength <= 4 && 2 * recordLength <= stride <= 8
    }

    /** Where node n starts. */
    function At(n: nat): nat { stride * n }

    predicate HasNode(n: nat) {
      At(n) + stride <= |bytes|
    }

    function Child(n: nat, right: bool): (x: nat)
      requires Shaped() && HasNode(n)
    {
      var at := At(n) + if right then recordLength else 0;
      Le(bytes[at..at + recordLength])
    }
  }

  datatype Trie = Leaf(value: nat) | Fork(left: Trie, right: Trie) | Dead

  /** The trie below node n, unfolded for d more address bits. Node numbers in the bytes may run
      outside the file or in circles: those branches are Dead. */
  function Tree(g: Grid, n: nat, d: nat): Trie
    requires g.Shaped()
    decreases d, 0
  {
    if d == 0 || !g.HasNode(n) then Dead
    else Fork(Branch(g, g.Child(n, false), d - 1), Branch(g, g.Child(n, true), d - 1))
  }

  function Branch(g: Grid, x: nat, d: nat): Trie
    requires g.Shaped()
    decreases d, 1
  {
    if x >= g.segment then Leaf(x) else Tree(g, x, d)
  }

  /** `free` is the number of low address bits the lookup did not look at. */
  datatype Answer = Hit(value: nat, free: nat) | Miss

  /** Follows the d low bits of `ip`, most significant first. */
  function Find(t: Trie, ip: nat, d: nat): Answer {
    match t
    case Leaf(v) => Hit(v, d)
    case Dead => Miss
    case Fork(l, r) =>
      if d == 0 then Miss
      else if Bit(ip, d - 1) then Find(r, ip, d - 1)
      else Find(l, ip, d - 1)
  }

  /** What a lookup function returns for an answer: 0 stands for a failed walk. */
  function ValueOf(a: Answer): nat {
    if a.Hit? then a.value else 0
  }

  function Lookup(g: Grid, ip: nat, width: nat): Answer
    requires g.Shaped()
  {
    Find(Tree(g, 0, width), ip, width)
  }

  /** One iteration of the lookup loop: what the read pointer means for the rest of the walk. */
  lemma FindStep(g: Grid, n: nat, ip: nat, d: nat)
    requires g.Shaped() && d > 0 && g.HasNode(n)
    ensures var x := g.Child(n, Bit(ip, d - 1));
            Find(Tree(g, n, d), ip, d) ==
            if x >= g.segment then Hit(x, d - 1) else Find(Tree(g, x, d - 1), ip, d - 1)
  {
  }

  /** A walk that has run out of bits or left the file finds nothing. */
  lemma FindDead(g: Grid, n: nat, ip: nat, d: nat)
    requires g.Shaped() && (d == 0 || !g.HasNode(n))
    ensures Find(Tree(g, n, d), ip, d) == Miss
  {
  }

  lemma ChildBound(g: Grid, n: nat, right: bool)
    requires g.Shaped() && g.HasNode(n)
    ensures g.Child(n, right) < Pow2(8 * g.recordLength)
  {
    var at := g.At(n) + if right then g.recordLength else 0;
    LeBound(g.bytes[at..at + g.recordLength]);
  }

  /** A hit consumed at least one bit, and its value is a leaf pointer that fits its field. */
  lemma {:induction false} HitRange(g: Grid, n: nat, ip: nat, d: nat)
    requires g.Shaped()
    ensures var a := Find(Tree(g, n, d), ip, d);
            a.Hit? ==> a.free < d && g.segment <= a.value < Pow2(8 * g.recordLength)
    decreases d
  {
    if d > 0 && g.HasNode(n) {
      FindStep(g, n, ip, d);
      var x := g.Child(n, Bit(ip, d - 1));
      ChildBound(g, n, Bit(ip, d - 1));
      hide Find, Tree;
      if x < g.segment { HitRange(g, x, ip, d - 1); }
    }
  }

  lemma {:induction false} FreeBound(t: Trie, ip: nat, d: nat)
    ensures var a := Find(t, ip, d); a.Hit? ==> a.free <= d
  {
    if t.Fork? && d > 0 {
      FreeBound(if Bit(ip, d - 1) then t.right else t.left, ip, d - 1);
    }
  }

  /** Every address that agrees with a hit above its free bits gets the same answer. */
  lemma {:induction false} PrefixBlock(t: Trie, a: nat, b: nat, d: nat)
    requires Find(t, a, d).Hit?
    requires Shr(a, Find(t, a, d).free) == Shr(b, Find(t, a, d).free)
    ensures Find(t, b, d) == Find(t, a, d)
  {
    if t.Fork? {
      var next := if Bit(a, d - 1) then t.right else t.left;
      FreeBound(next, a, d - 1);
      SameTopBits(a, b, Find(t, a, d).free, d - 1);
      PrefixBlock(next, a, b, d - 1);
    }
  }

  /** The netmask a lookup reports is between 1 and the address width, and every address agreeing
      on that many top bits gets the same value and the same netmask. */
  lemma NetmaskIsPrefix(g: Grid, width: nat, a: nat, b: nat)
    requires g.Shaped() && Lookup(g, a, width).Hit?
    ensures var netmask := width - Lookup(g, a, width).free;
            && 1 <= netmask <= width
            && (Shr(a, width - netmask) == Shr(b, width - netmask) ==> Lookup(g, b, width) == Lookup(g, a, width))
  {
    HitRange(g, 0, a, width);
    var f := Lookup(g, a, width).free;
    if Shr(a, f) == Shr(b, f) {
      PrefixBlock(Tree(g, 0, width), a, b, width);
    }
    hide Find, Tree;
  }

  /** The netblock of a hit as an interval of addresses. */
  lemma NetblockAnswers(g: Grid, width: nat, a: nat, b: nat)
    requires g.Shaped() && Lookup(g, a, width).Hit?
    requires var p := Pow2(Lookup(g, a, width).free);
             a - a % p <= b < a - a % p + p
    ensures Lookup(g, b, width) == Lookup(g, a, width)
  {
    BlockBounds(a, b, Lookup(g, a, width).free);
    PrefixBlock(Tree(g, 0, width), a, b, width);
  }

  // ------------------------------------------------------------ lookups as paths

  /** The pointers a walk from node n over the d low bits of `ip` reads, in the bytes themselves: each
      step takes the right half of a node for a bit that is set and the left half for one that is not,
      and the last pointer, only that one, reaches the segment value. */
  predicate Leads(g: Grid, n: nat, ip: nat, d: nat, path: seq<nat>)
    decreases d
  {
    && d > 0 && path != []
    && g.stride * n + g.stride <= |g.bytes|
    && var at := g.stride * n + if ip / Pow2(d - 1) % 2 == 1 then g.recordLength else 0;
    && at + g.recordLength <= |g.bytes|
    && path[0] == Le(g.bytes[at..at + g.recordLength])
    && if |path| == 1 then path[0] >= g.segment
       else path[0] < g.segment && Leads(g, path[0], ip, d - 1, path[1..])
  }

  /** A lookup hits exactly when such a path leads from the root to a leaf: its value is the end of
      the path, and as many bits are left as the path did not use. */
  lemma LookupIsPath(g: Grid, ip: nat, width: nat, value: nat, free: nat)
    requires g.Shaped()
    ensures Lookup(g, ip, width) == Hit(value, free) <==>
            exists path :: Leads(g, 0, ip, width, path) && path[|path| - 1] == value && |path| + free == width
  {
    if Lookup(g, ip, width) == Hit(value, free) {
      HitRange(g, 0, ip, width);
      hide *;
      var path := FindPath(g, 0, ip, width);
    }
    forall path | Leads(g, 0, ip, width, path) && path[|path| - 1] == value && |path| + free == width
      ensures Lookup(g, ip, width) == Hit(value, free)
    {
      PathFinds(g, 0, ip, width, path);
      hide Leads, Find, Tree;
    }
  }

  lemma PathStep(g: Grid, n: nat, ip: nat, d: nat)
    requires g.Shaped() && g.HasNode(n) && d > 0
    ensures var at := g.stride * n + if ip / Pow2(d - 1) % 2 == 1 then g.recordLength else 0;
            && g.stride * n + g.stride <= |g.bytes| && at + g.recordLength <= |g.bytes|
            && g.Child(n, Bit(ip, d - 1)) == Le(g.bytes[at..at + g.recordLength])
  {
    ShrIsDiv(ip, d - 1);
    hide Le, Pow2, Shr;
  }

  lemma {:induction false} PathFinds(g: Grid, n: nat, ip: nat, d: nat, path: seq<nat>)
    requires g.Shaped() && Leads(g, n, ip, d, path)
    ensures |path| <= d && Find(Tree(g, n, d), ip, d) == Hit(path[|path| - 1], d - |path|)
    decreases d
  {
    hide Le, Pow2, Bit, Find, Tree, Grid.Child;
    PathStep(g, n, ip, d);
    FindStep(g, n, ip, d);
    if |path| > 1 {
      PathFinds(g, path[0], ip, d - 1, path[1..]);
    }
  }

  lemma {:induction false} FindPath(g: Grid, n: nat, ip: nat, d: nat) returns (path: seq<nat>)
    requires g.Shaped() && Find(Tree(g, n, d), ip, d).Hit? && Find(Tree(g, n, d), ip, d).free < d
    ensures Leads(g, n, ip, d, path) && |path| <= d
    ensures Find(Tree(g, n, d), ip, d) == Hit(path[|path| - 1], d - |path|)
    decreases d
  {
    hide Le, Pow2, Bit, Find, Tree, Grid.Child, Grid.HasNode;
    if !g.HasNode(n) {
      FindDead(g, n, ip, d);
    }
    PathStep(g, n, ip, d);
    FindStep(g, n, ip, d);
    var x := g.Child(n, Bit(ip, d - 1));
    if x >= g.segment {
      path := [x];
    } else {
      HitRange(g, x, ip, d - 1);
      var rest := FindPath(g, x, ip, d - 1);
      path := [x] + rest;
      assert path[1..] == rest;
    }
  }

  /** The node reached from n by the address bits from d down to `stop`, if the walk meets
      neither a leaf nor the end of the file before. */
  function Descend(g: Grid, n: nat, ip: nat, d: nat, stop: nat): Option<nat>
    requires g.Shaped()
    decreases d
  {
    if d <= stop then Some(n)
    else if !g.HasNode(n) then None
    else
      var x := g.Child(n, Bit(ip, d - 1));
      if x >= g.segment then None else Descend(g, x, ip, d - 1, stop)
  }

  /** A walk splits at any depth: it continues as a shorter walk from the node reached. */
  lemma {:induction false} WalkSplits(g: Grid, n: nat, ip: nat, d: nat, stop: nat)
    requires g.Shaped() && stop <= d
    requires Descend(g, n, ip, d, stop).Some?
    ensures Find(Tree(g, n, d), ip, d) == Find(Tree(g, Descend(g, n, ip, d, stop).value, stop), ip, stop)
    decreases d
  {
    if d > stop {
      var x := g.Child(n, Bit(ip, d - 1));
      WalkSplits(g, x, ip, d - 1, stop);
      FindStep(g, n, ip, d);
    }
  }
}
