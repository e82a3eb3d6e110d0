/** Whole runs of one handle: time passes, the file is replaced or removed, addresses are looked
    up. Each lookup first checks for a new file. */
module Runs {
  import opened Bytes
  import opened Footer
  import opened Trie
  import opened GeoIPDatabase
  import opened IPv4Lookup
  import opened IPv6Lookup

  /** `width` is 32 for an IPv4 lookup and 128 for an IPv6 one; each lookup finds other bytes in its
      stack buffer. */
  datatype Event =
    | Tick(seconds: nat)
    | Replace(version: FileVersion)
    | Remove
    | Query(ip: nat, width: nat, garbage: StackBuffer)

  /** The file version a handle serves and, unless it was opened with it, when it adopted it. */
  datatype Snapshot = Snapshot(version: FileVersion, adopted: Option<int>)

  /** A lookup made, with the pair length it started with; the answer None is one that read outside
      its buffers. */
  datatype Served = Served(
    snapshot: Snapshot, at: int, pairLength: nat, ip: nat, width: nat, answer: Option<Answer>)

  datatype World = World(clock: int, file: Option<FileVersion>, handle: Handle, snapshot: Snapshot, log: seq<Served>)

  function Start(v: FileVersion, flags: Flags, clock: int): World
    requires Opened(v, flags).Some?
  {
    World(clock, Some(v), Opened(v, flags).value, Snapshot(v, None), [])
  }

  function Step(w: World, e: Event): World {
    match e
    case Tick(n) => w.(clock := w.clock + n)
    case Replace(v) => w.(file := Some(v))
    case Remove => w.(file := None)
    case Query(ip, width, garbage) =>
      var h := Checked(w.handle, w.clock, w.file);
      var s := if Adopts(w.handle, w.clock, w.file) then Snapshot(w.file.value, Some(w.clock)) else w.snapshot;
      var pairLength := 2 * w.handle.recordLength;
      var answer := ModeFind(h, pairLength, garbage, 0, ip, width);
      World(w.clock, w.file, h, s, w.log + [Served(s, w.clock, pairLength, ip, width, answer)])
  }

  function Run(w: World, es: seq<Event>): World {
    if es == [] then w else Step(Run(w, es[..|es| - 1]), es[|es| - 1])
  }

  /** The lookup in a file version by itself, with no handle, cache or history involved. */
  function PlainAnswer(v: FileVersion, ip: nat, width: nat): Answer {
    var f := StructureOf(v.bytes);
    StructureBounds(v.bytes);
    if f.segment.None? then Miss
    else Lookup(Grid(v.bytes, 2 * f.recordLength, f.recordLength, f.segment.value), ip, width)
  }

  /** A version the library can open, with an index cache (if one is asked for) that covers its
      lookups. */
  predicate Usable(v: FileVersion, flags: Flags) {
    Opened(v, flags).Some? && (flags.indexCache ==> IndexCovers(Opened(v, flags).value))
  }

  /** Without an index cache every version that opens is usable; with one, those with a segment value
      of at least 1, no records, or no node. */
  lemma UsableMeans(v: FileVersion, flags: Flags)
    ensures var f := StructureOf(v.bytes);
            Usable(v, flags) <==>
            && Opened(v, flags).Some?
            && (!flags.indexCache || f.segment.value >= 1 || f.edition in {1, 3, 7, 8, 10, 12, 17, 18}
                || |v.bytes| < 2 * f.recordLength)
  {
    OpenedMeans(v, flags);
    hide StructureOf, IndexSize, Opened;
  }

  predicate Replaced(es: seq<Event>, v: FileVersion) {
    exists k :: 0 <= k < |es| && es[k] == Replace(v)
  }

  /** Where a snapshot may come from: the open, or a replacement untouched for over a minute. */
  predicate Legitimate(s: Snapshot, v0: FileVersion, es: seq<Event>, now: int) {
    match s.adopted
    case None => s.version == v0
    case Some(t) => (s.version == v0 || Replaced(es, s.version)) && s.version.mtime + 60 < t <= now
  }

  /** A lookup's answer is the plain one if it serves a usable version with that version's pair
      length; only a lookup that has just adopted the version can have another. */
  predicate GoodEntry(e: Served, v0: FileVersion, flags: Flags, es: seq<Event>, now: int) {
    var v := e.snapshot.version;
    var proper := e.pairLength == 2 * StructureOf(v.bytes).recordLength;
    && (Usable(v, flags) && proper ==> e.answer == Some(PlainAnswer(v, e.ip, e.width)))
    && (Usable(v, flags) && !proper ==> e.snapshot.adopted == Some(e.at))
    && Legitimate(e.snapshot, v0, es, e.at)
    && e.at <= now
  }

  predicate GoodLog(log: seq<Served>, v0: FileVersion, flags: Flags, es: seq<Event>, now: int) {
    forall k | 0 <= k < |log| :: GoodEntry(log[k], v0, flags, es, now)
  }

  /** What the fields say of the version served, which is rejected or described by all of them. */
  predicate Serves(h: Handle, v: FileVersion, flags: Flags) {
    && h.flags == flags && CachesAsked(h)
    && (Opened(v, flags).Some? ==> Describes(h, v))
    && (flags.checkCache ==> h.mtime == v.mtime)
  }

  predicate Safe(w: World, v0: FileVersion, flags: Flags, es: seq<Event>) {
    && Serves(w.handle, w.snapshot.version, flags)
    && (w.file.Some? ==> w.file.value == v0 || Replaced(es, w.file.value))
    && Legitimate(w.snapshot, v0, es, w.clock)
    && GoodLog(w.log, v0, flags, es, w.clock)
  }

  /** In every run, at every point, whatever files appear: the version served is the opened one or a
      replacement that was untouched for more than 60 seconds when adopted; if the library can open
      it, all the fields describe it, also after other versions were adopted that it cannot open; and
      every answer given from a usable version is the plain lookup in it, except where the lookup
      adopted the version itself and its records have another length. */
  lemma {:induction false} EveryRunIsSafe(v0: FileVersion, flags: Flags, clock: int, es: seq<Event>)
    requires Opened(v0, flags).Some?
    ensures Safe(Run(Start(v0, flags, clock), es), v0, flags, es)
    decreases |es|
  {
    if es == [] {
      StartSafe(v0, flags, clock);
    } else {
      var n := |es| - 1;
      EveryRunIsSafe(v0, flags, clock, es[..n]);
      assert es[..n] + [es[n]] == es;
      StepSafe(Run(Start(v0, flags, clock), es[..n]), v0, flags, es[..n], es[n]);
    }
    hide Safe, Step, Opened;
  }

  lemma StartSafe(v0: FileVersion, flags: Flags, clock: int)
    requires Opened(v0, flags).Some?
    ensures Safe(Start(v0, flags, clock), v0, flags, [])
  {
    hide StructureOf, IndexSize;
  }

  lemma StepSafe(w: World, v0: FileVersion, flags: Flags, es: seq<Event>, e: Event)
    requires Safe(w, v0, flags, es)
    ensures Safe(Step(w, e), v0, flags, es + [e])
  {
    var w' := Step(w, e);
    LaterIsFine(w, v0, flags, es, e, w'.clock);
    match e {
      case Query(ip, width, garbage) =>
        QuerySafe(w, flags, ip, width, garbage);
        hide PlainAnswer, ModeFind, StructureOf, Serves, Usable, Replaced, Checked;
      case Replace(v) =>
        assert (es + [e])[|es|] == Replace(v);
        hide GoodEntry, Serves;
      case _ =>
        hide GoodEntry, Serves;
    }
  }

  /** Growing the history and the clock keeps what was recorded. */
  lemma LaterIsFine(w: World, v0: FileVersion, flags: Flags, es: seq<Event>, e: Event, now: int)
    requires Legitimate(w.snapshot, v0, es, w.clock) && GoodLog(w.log, v0, flags, es, w.clock) && w.clock <= now
    ensures Legitimate(w.snapshot, v0, es + [e], now) && GoodLog(w.log, v0, flags, es + [e], now)
    ensures forall v :: Replaced(es, v) ==> Replaced(es + [e], v)
  {
    hide PlainAnswer, Usable, StructureOf;
    forall v | Replaced(es, v) ensures Replaced(es + [e], v) {
      var k :| 0 <= k < |es| && es[k] == Replace(v);
      assert (es + [e])[k] == Replace(v);
    }
    hide Replaced;
  }

  /** The version a lookup serves. */
  function ServedBy(w: World): FileVersion {
    if Adopts(w.handle, w.clock, w.file) then w.file.value else w.snapshot.version
  }

  /** A lookup now serves a usable version, with records as long as those before it. */
  predicate Plain(w: World, flags: Flags) {
    Usable(ServedBy(w), flags) && w.handle.recordLength == StructureOf(ServedBy(w).bytes).recordLength
  }

  /** A lookup leaves a handle that serves one version, and answers as that file by itself; without
      a reload its pair length is the proper one. */
  lemma QuerySafe(w: World, flags: Flags, ip: nat, width: nat, garbage: StackBuffer)
    requires Serves(w.handle, w.snapshot.version, flags)
    ensures var h, v := Checked(w.handle, w.clock, w.file), ServedBy(w);
            && Serves(h, v, flags)
            && (Usable(v, flags) && !Adopts(w.handle, w.clock, w.file) ==> Plain(w, flags))
            && (Plain(w, flags) ==>
                  ModeFind(h, 2 * w.handle.recordLength, garbage, 0, ip, width) == Some(PlainAnswer(v, ip, width)))
  {
    var h, v := Checked(w.handle, w.clock, w.file), ServedBy(w);
    CheckServes(w, flags);
    if Plain(w, flags) {
      SafeIsReady(w, flags);
      hide *;
      ReadyFinds(h, garbage, ip, width);
      PlainAnswerIs(h, v, ip, width);
    }
    hide *;
  }

  /** After the check the handle serves a version again; without a reload its records are as long as
      before. */
  lemma CheckServes(w: World, flags: Flags)
    requires Serves(w.handle, w.snapshot.version, flags)
    ensures var h, v := Checked(w.handle, w.clock, w.file), ServedBy(w);
            && Serves(h, v, flags)
            && (Usable(v, flags) && !Adopts(w.handle, w.clock, w.file) ==> Plain(w, flags))
  {
    if Adopts(w.handle, w.clock, w.file) {
      ReloadIsReopen(w.handle, w.clock, w.file.value);
      hide StructureOf, Opened, Describes;
    }
    hide StructureOf, IndexSize, IndexCovers, Reloaded;
  }

  /** When the version served is usable and its records are as long as before, the handle is ready. */
  lemma SafeIsReady(w: World, flags: Flags)
    requires Serves(w.handle, w.snapshot.version, flags) && Plain(w, flags)
    ensures var h := Checked(w.handle, w.clock, w.file);
            Ready(h) && h.recordLength == w.handle.recordLength && Describes(h, ServedBy(w))
  {
    var h := Checked(w.handle, w.clock, w.file);
    CheckServes(w, flags);
    hide Checked;
    DescribesIsCoherent(h, ServedBy(w));
    DescribedIndex(h, ServedBy(w));
    hide Describes, Coherent, Opened, StructureOf;
  }

  lemma DescribedIndex(h: Handle, v: FileVersion)
    requires Describes(h, v)
    ensures Opened(v, h.flags).Some? && h.recordLength == StructureOf(v.bytes).recordLength && h.segment.Some?
    ensures IndexCovers(h) == IndexCovers(Opened(v, h.flags).value)
    ensures h.indexCache.Some? == h.flags.indexCache
  {
    hide StructureOf, IndexSize;
  }

  lemma PlainAnswerIs(h: Handle, v: FileVersion, ip: nat, width: nat)
    requires Describes(h, v) && PlainGrid(h).Shaped()
    ensures PlainAnswer(v, ip, width) == Lookup(PlainGrid(h), ip, width)
  {
    hide StructureOf, IndexSize, Lookup;
  }

  /** A lookup after the first in a second notices any file that has been quiet for over a minute:
      it then serves a version with that file's modification time. */
  lemma QuietFileIsServed(w: World, v0: FileVersion, flags: Flags, es: seq<Event>, query: Event)
    requires Safe(w, v0, flags, es) && flags.checkCache && query.Query?
    requires w.file.Some? && w.file.value.mtime + 60 < w.clock && w.handle.lastMtimeCheck != w.clock
    ensures var s := Step(w, query).snapshot;
            && s.version.mtime == w.file.value.mtime
            && (w.file.value.mtime != w.snapshot.version.mtime ==> s.version == w.file.value)
  {
    hide Opened, Describes, GoodLog, Legitimate, ModeFind, Checked;
  }

  /** When the handle last looked for a new file: at the last lookup, and at 0 before the first. */
  predicate LastCheck(w: World, flags: Flags) {
    w.handle.lastMtimeCheck == if flags.checkCache && w.log != [] then w.log[|w.log| - 1].at else 0
  }

  lemma {:induction false} RunLastCheck(v0: FileVersion, flags: Flags, clock: int, es: seq<Event>)
    requires Opened(v0, flags).Some?
    ensures LastCheck(Run(Start(v0, flags, clock), es), flags)
    decreases |es|
  {
    var w0 := Start(v0, flags, clock);
    if es == [] {
      OpenedMeans(v0, flags);
      hide Opened;
    } else {
      var n := |es| - 1;
      EveryRunIsSafe(v0, flags, clock, es[..n]);
      RunLastCheck(v0, flags, clock, es[..n]);
      var w := Run(w0, es[..n]);
      StepLastCheck(w, v0, flags, es[..n], es[n]);
      hide *;
      assert Run(w0, es) == Step(w, es[n]) by { LastStep(w0, es); }
    }
  }

  lemma LastStep(w: World, es: seq<Event>)
    requires es != []
    ensures Run(w, es) == Step(Run(w, es[..|es| - 1]), es[|es| - 1])
  {
    hide Step;
  }

  lemma StepLastCheck(w: World, v0: FileVersion, flags: Flags, es: seq<Event>, e: Event)
    requires Safe(w, v0, flags, es) && LastCheck(w, flags)
    ensures LastCheck(Step(w, e), flags)
  {
    hide Opened, Describes, GoodLog, Legitimate, ModeFind, StructureOf, IndexSize;
  }

  /** In every run, what a lookup serves: it takes the file behind the path up exactly when checking is
      asked for, no lookup came before it in the same second (at second 0: at all), and that file has
      another time stamp than the version served so far and one more than a minute old. Otherwise the
      version and all the fields but the time of the check stay as they are. */
  lemma LookupAdopts(v0: FileVersion, flags: Flags, clock: int, es: seq<Event>, query: Event)
    requires Opened(v0, flags).Some? && query.Query?
    ensures var w := Run(Start(v0, flags, clock), es);
            var w' := Step(w, query);
            var again := if w.log == [] then w.clock == 0 else w.log[|w.log| - 1].at == w.clock;
            if && flags.checkCache && !again && w.file.Some?
               && w.file.value.mtime != w.snapshot.version.mtime && w.file.value.mtime + 60 < w.clock
            then w'.snapshot == Snapshot(w.file.value, Some(w.clock))
            else w'.snapshot == w.snapshot && w'.handle == w.handle.(lastMtimeCheck := w'.handle.lastMtimeCheck)
  {
    var w := Run(Start(v0, flags, clock), es);
    EveryRunIsSafe(v0, flags, clock, es);
    RunLastCheck(v0, flags, clock, es);
    hide Run, Start, Opened, Describes, GoodLog, Legitimate, ModeFind, StructureOf, IndexSize, Reloaded;
  }

  /** Events in which no second passes. */
  predicate SameSecond(es: seq<Event>) {
    forall k | 0 <= k < |es| && es[k].Tick? :: es[k].seconds == 0
  }

  /** After a lookup, whatever happens to the file within the same second, and whatever is looked up:
      the version served and every field of the handle stay as that lookup left them. */
  lemma {:induction false} OneCheckASecond(w: World, query: Event, es: seq<Event>)
    requires query.Query? && SameSecond(es)
    ensures var w', e := Step(w, query), Run(Step(w, query), es);
            e.snapshot == w'.snapshot && e.handle == w'.handle && e.clock == w'.clock
    decreases |es|
  {
    if es != [] {
      var n := |es| - 1;
      assert SameSecond(es[..n]) && (es[n].Tick? ==> es[n].seconds == 0);
      OneCheckASecond(w, query, es[..n]);
      CheckedNow(w, query);
      hide ModeFind, Reloaded, SameSecond;
    }
  }

  lemma CheckedNow(w: World, query: Event)
    requires query.Query?
    ensures var h := Step(w, query).handle; !h.flags.checkCache || h.lastMtimeCheck == w.clock
    ensures Step(w, query).clock == w.clock
  {
    hide ModeFind;
  }

  /** Without the check flag the handle never changes. */
  lemma {:induction false} NoCheckNoChange(w: World, es: seq<Event>)
    requires !w.handle.flags.checkCache
    ensures Run(w, es).handle == w.handle && Run(w, es).snapshot == w.snapshot
    decreases |es|
  {
    if es != [] {
      NoCheckNoChange(w, es[..|es| - 1]);
      hide ModeFind, Reloaded;
    }
  }

  /** The netmask a lookup leaves: that of its answer, or what was there when it missed. */
  function NetmaskAfter(answer: Answer, width: nat, before: int): int {
    if answer.Hit? then width - answer.free else before
  }

  /** The lookup method takes the step a run records, with the same fields and the same answer, which
      is the plain one in a usable version whose records are as long as those before. */
  method QueryStep(gi: GeoIP, os: System, ipnum: u64, gl: GeoIPLookup, garbage: StackBuffer,
                   ghost w: World, ghost v0: FileVersion, ghost flags: Flags, ghost es: seq<Event>)
    returns (x: u32)
    requires Safe(w, v0, flags, es)
    requires gi.View() == w.handle && os.clock == w.clock && os.file == w.file
    requires Entry(w, Followed(ipnum), 32, garbage).answer.Some?
    modifies gi`database, gi`cache, gi`indexCache, gi`databaseSegments, gi`databaseType, gi`mtime,
             gi`size, gi`recordLength, gi`lastMtimeCheck, gi`netmask, gl
    ensures var ip := Followed(ipnum);
            var w' := Step(w, Query(ip, 32, garbage));
            var answer := Entry(w, ip, 32, garbage).answer.value;
            && gi.View() == w'.handle && w'.log == w.log + [Entry(w, ip, 32, garbage)]
            && (Plain(w, flags) ==> answer == PlainAnswer(w'.snapshot.version, ip, 32))
            && x == ValueOf(answer)
            && gi.netmask == NetmaskAfter(answer, 32, old(gi.netmask))
            && gl.netmask == NetmaskAfter(answer, 32, old(gl.netmask))
  {
    hide Safe, Checked, Lookup, ModeFind, PlainAnswer, Plain, Adopts, Followed;
    SafeQueries(w, v0, flags, es, Followed(ipnum), 32, garbage);
    x := SeekRecord(gi, os, ipnum, gl, garbage);
  }

  /** What a lookup records. */
  function Entry(w: World, ip: nat, width: nat, garbage: StackBuffer): Served {
    Step(w, Query(ip, width, garbage)).log[|w.log|]
  }

  /** A lookup of a plain version reads inside its buffers and answers as that version by itself. */
  lemma SafeQueries(w: World, v0: FileVersion, flags: Flags, es: seq<Event>, ip: nat, width: nat, garbage: StackBuffer)
    requires Safe(w, v0, flags, es)
    ensures var w' := Step(w, Query(ip, width, garbage));
            var answer := Entry(w, ip, width, garbage).answer;
            && w'.handle == Checked(w.handle, w.clock, w.file)
            && w'.log == w.log + [Entry(w, ip, width, garbage)]
            && answer == ModeFind(w'.handle, 2 * w.handle.recordLength, garbage, 0, ip, width)
            && (Plain(w, flags) ==> answer == Some(PlainAnswer(w'.snapshot.version, ip, width)))
  {
    QuerySafe(w, flags, ip, width, garbage);
    hide Checked, ModeFind, PlainAnswer, Serves, Usable, Adopts;
  }

  /** Likewise for IPv6, where the address recorded is the rewritten one. */
  method QueryStep6(gi: GeoIP, os: System, ipnum: Address6, gl: GeoIPLookup, garbage: StackBuffer,
                    ghost w: World, ghost v0: FileVersion, ghost flags: Flags, ghost es: seq<Event>)
    returns (x: u32)
    requires Safe(w, v0, flags, es)
    requires gi.View() == w.handle && os.clock == w.clock && os.file == w.file
    requires Entry(w, Sought(ipnum, gi.teredo), 128, garbage).answer.Some?
    modifies gi`database, gi`cache, gi`indexCache, gi`databaseSegments, gi`databaseType, gi`mtime,
             gi`size, gi`recordLength, gi`lastMtimeCheck, gi`netmask, gl
    ensures var ip := Sought(ipnum, gi.teredo);
            var w' := Step(w, Query(ip, 128, garbage));
            var answer := Entry(w, ip, 128, garbage).answer.value;
            && gi.View() == w'.handle && w'.log == w.log + [Entry(w, ip, 128, garbage)]
            && (Plain(w, flags) ==> answer == PlainAnswer(w'.snapshot.version, ip, 128))
            && x == ValueOf(answer)
            && gi.netmask == NetmaskAfter(answer, 128, old(gi.netmask))
            && gl.netmask == NetmaskAfter(answer, 128, old(gl.netmask))
  {
    hide Safe, Checked, Lookup, ModeFind, PlainAnswer, Plain, Adopts, Sought;
    SafeQueries(w, v0, flags, es, Sought(ipnum, gi.teredo), 128, garbage);
    x := SeekRecordV6(gi, os, ipnum, gl, garbage);
  }
}
