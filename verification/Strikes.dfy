/** The strike tracker (src/intelligence/strikes.rs): 64 shards of per-address records with three
    independent counters, refined to one flat map and then to histories of strikes. */
module Strikes {
  import opened Bits
  import opened Cidr
  import opened Wrappers

  const NUM_SHARDS: nat := 64
  const U8_MAX: nat := 255
  const U64_MAX: nat := 0xFFFF_FFFF_FFFF_FFFF

  datatype StrikeResult = UnderThreshold(current: nat, max: nat) | ThresholdReached(count: nat)

  /** One counter of a record: when it was last hit (0 for never), its strikes, and its category.
      Only the isolated counter uses categories; the other two keep 0. */
  datatype Counter = Counter(last: nat, strikes: nat, cat: nat)

  const FRESH := Counter(0, 0, 0)

  datatype Pool = Critical | Isolated | Tool

  datatype IpStrikeRecord = IpStrikeRecord(critical: Counter, isolated: Counter, tool: Counter) {
    function Get(pool: Pool): Counter {
      match pool
      case Critical => critical
      case Isolated => isolated
      case Tool => tool
    }

    function Set(pool: Pool, c: Counter): IpStrikeRecord {
      match pool
      case Critical => this.(critical := c)
      case Isolated => this.(isolated := c)
      case Tool => this.(tool := c)
    }
  }

  const DEFAULT_RECORD := IpStrikeRecord(FRESH, FRESH, FRESH)

  datatype Strike = Strike(pool: Pool, cat: nat, threshold: nat, window: nat, now: nat) {
    ghost predicate Valid() {
      now >= 1 && threshold <= U8_MAX && (!pool.Isolated? ==> cat == 0)
    }
  }

  function SaturatingIncrement(n: nat): nat {
    if n < U8_MAX then n + 1 else U8_MAX
  }

  // ----- the flat map

  type Flat = map<IpAddr, IpStrikeRecord>

  /** A sweep looks at some of the addresses: in the source, at one shard at a time. */
  datatype Op =
    | Hit(ip: IpAddr, strike: Strike)
    | Sweep(covers: IpAddr -> bool, now: nat, maxIdle: nat)
    | Clear(ip: IpAddr)

  function CounterAfter(c: Counter, s: Strike): Counter {
    var expired := c.last != 0 && SaturatingSub(s.now, c.last) > s.window;
    Counter(s.now, SaturatingIncrement(if c.cat != s.cat || expired then 0 else c.strikes), s.cat)
  }

  function Lookup(m: Flat, ip: IpAddr): IpStrikeRecord {
    if ip in m then m[ip] else DEFAULT_RECORD
  }

  function Judge(strikes: nat, threshold: nat): StrikeResult {
    if strikes >= threshold then ThresholdReached(strikes) else UnderThreshold(strikes, threshold)
  }

  function IdleFor(c: Counter, now: nat): nat {
    if c.last == 0 then U64_MAX else SaturatingSub(now, c.last)
  }

  predicate Keep(r: IpStrikeRecord, now: nat, maxIdle: nat) {
    IdleFor(r.critical, now) <= maxIdle || IdleFor(r.isolated, now) <= maxIdle || IdleFor(r.tool, now) <= maxIdle
  }

  function Retained(m: Flat, covers: IpAddr -> bool, now: nat, maxIdle: nat): Flat {
    map ip | ip in m && (!covers(ip) || Keep(m[ip], now, maxIdle)) :: m[ip]
  }

  lemma RetainedTwice(m: Flat, a: IpAddr -> bool, b: IpAddr -> bool, both: IpAddr -> bool, now: nat, maxIdle: nat)
    requires forall ip :: both(ip) <==> a(ip) || b(ip)
    ensures Retained(Retained(m, a, now, maxIdle), b, now, maxIdle) == Retained(m, both, now, maxIdle)
  {
  }

  lemma RetainedSame(m: Flat, a: IpAddr -> bool, b: IpAddr -> bool, now: nat, maxIdle: nat)
    requires forall ip :: a(ip) <==> b(ip)
    ensures Retained(m, a, now, maxIdle) == Retained(m, b, now, maxIdle)
  {
  }

  function Apply(m: Flat, op: Op): Flat {
    match op
    case Hit(ip, s) =>
      var r := Lookup(m, ip);
      m[ip := r.Set(s.pool, CounterAfter(r.Get(s.pool), s))]
    case Sweep(covers, now, maxIdle) => Retained(m, covers, now, maxIdle)
    case Clear(ip) => m - {ip}
  }

  /** What a strike reports from a given state. */
  function ResultOf(m: Flat, ip: IpAddr, s: Strike): StrikeResult {
    Judge(CounterAfter(Lookup(m, ip).Get(s.pool), s).strikes, s.threshold)
  }

  /** How long ago the pool was last hit, if ever, is more than `maxIdle`. */
  ghost predicate Idle(c: Counter, now: nat, maxIdle: nat) {
    if c.last == 0 then maxIdle < U64_MAX else c.last + maxIdle < now
  }

  /** A sweep drops exactly the covered records whose three pools were all never hit or hit too long ago, and
      changes no other. */
  lemma SweepMeaning(m: Flat, covers: IpAddr -> bool, now: nat, maxIdle: nat, ip: IpAddr)
    ensures var after := Apply(m, Sweep(covers, now, maxIdle));
            && (ip in after <==> ip in m && !(covers(ip) && forall pool :: Idle(m[ip].Get(pool), now, maxIdle)))
            && (ip in after ==> after[ip] == m[ip])
  {
    if ip in m {
      var r := m[ip];
      assert r.Get(Critical) == r.critical && r.Get(Isolated) == r.isolated && r.Get(Tool) == r.tool;
      assert Keep(r, now, maxIdle)
        <==> !Idle(r.critical, now, maxIdle) || !Idle(r.isolated, now, maxIdle) || !Idle(r.tool, now, maxIdle);
      assert forall pool :: r.Get(pool) == r.critical || r.Get(pool) == r.isolated || r.Get(pool) == r.tool;
    }
  }

  // ----- the sharded tracker

  class IpStrikeTracker {
    const hash: IpAddr -> nat
    const shards: array<Flat>
    /** The one map the shards stand for. */
    ghost var Contents: Flat

    ghost predicate Valid()
      reads this, shards
    {
      && shards.Length == NUM_SHARDS
      && (forall ip :: ip in Contents <==> ip in shards[ShardIndex(ip)])
      && (forall ip :: ip in Contents ==> Contents[ip] == shards[ShardIndex(ip)][ip])
      && (forall i, ip :: 0 <= i < NUM_SHARDS && ip in shards[i] ==> ShardIndex(ip) == i)
    }

    function ShardIndex(ip: IpAddr): (i: nat)
      ensures i < NUM_SHARDS
    {
      hash(ip) % NUM_SHARDS
    }

    constructor (hash: IpAddr -> nat)
      ensures Valid() && fresh(shards)
      ensures Contents == map[] && this.hash == hash
    {
      this.hash := hash;
      shards := new Flat[NUM_SHARDS](_ => map[]);
      Contents := map[];
    }

    /** The body the three record methods share: update one counter of one record in its shard. */
    method RecordStrike(ip: IpAddr, s: Strike) returns (r: StrikeResult)
      requires Valid()
      modifies this`Contents, shards
      ensures Valid()
      ensures Contents == Apply(old(Contents), Hit(ip, s))
      ensures r == ResultOf(old(Contents), ip, s)
    {
      var idx := ShardIndex(ip);
      var record := Lookup(shards[idx], ip);
      var c := record.Get(s.pool);
      if c.cat != s.cat || (c.last != 0 && SaturatingSub(s.now, c.last) > s.window) {
        c := c.(cat := s.cat, strikes := 0);
      }
      c := c.(strikes := SaturatingIncrement(c.strikes));
      c := c.(last := s.now);
      shards[idx] := shards[idx][ip := record.Set(s.pool, c)];
      Contents := Contents[ip := record.Set(s.pool, c)];
      r := if c.strikes >= s.threshold then ThresholdReached(c.strikes) else UnderThreshold(c.strikes, s.threshold);
    }

    method RecordSharedStrike(ip: IpAddr, threshold: nat, window: nat, now: nat) returns (r: StrikeResult)
      requires Valid()
      modifies this`Contents, shards
      ensures Valid()
      ensures Contents == Apply(old(Contents), Hit(ip, Strike(Critical, 0, threshold, window, now)))
      ensures r == ResultOf(old(Contents), ip, Strike(Critical, 0, threshold, window, now))
    {
      r := RecordStrike(ip, Strike(Critical, 0, threshold, window, now));
    }

    method RecordIsolatedStrike(ip: IpAddr, cat: nat, threshold: nat, window: nat, now: nat)
      returns (r: StrikeResult)
      requires Valid()
      modifies this`Contents, shards
      ensures Valid()
      ensures Contents == Apply(old(Contents), Hit(ip, Strike(Isolated, cat, threshold, window, now)))
      ensures r == ResultOf(old(Contents), ip, Strike(Isolated, cat, threshold, window, now))
    {
      r := RecordStrike(ip, Strike(Isolated, cat, threshold, window, now));
    }

    method RecordToolStrike(ip: IpAddr, threshold: nat, window: nat, now: nat) returns (r: StrikeResult)
      requires Valid()
      modifies this`Contents, shards
      ensures Valid()
      ensures Contents == Apply(old(Contents), Hit(ip, Strike(Tool, 0, threshold, window, now)))
      ensures r == ResultOf(old(Contents), ip, Strike(Tool, 0, threshold, window, now))
    {
      r := RecordStrike(ip, Strike(Tool, 0, threshold, window, now));
    }

    /** What happens under the lock of one shard. */
    method SweepShard(i: nat, now: nat, maxIdle: nat)
      requires Valid() && i < NUM_SHARDS
      modifies this`Contents, shards
      ensures Valid()
      ensures Contents == Apply(old(Contents), Sweep(ip => ShardIndex(ip) == i, now, maxIdle))
    {
      shards[i] := Retained(shards[i], _ => true, now, maxIdle);
      Contents := Retained(Contents, ip => ShardIndex(ip) == i, now, maxIdle);
    }

    method CleanupStale(now: nat, maxIdle: nat)
      requires Valid()
      modifies this`Contents, shards
      ensures Valid()
      ensures Contents == Apply(old(Contents), Sweep(_ => true, now, maxIdle))
    {
      ghost var was := Contents;
      assert Contents == Retained(was, ip => ShardIndex(ip) < 0, now, maxIdle);
      for i := 0 to NUM_SHARDS
        invariant Valid()
        invariant Contents == Retained(was, ip => ShardIndex(ip) < i, now, maxIdle)
      {
        RetainedTwice(was, ip => ShardIndex(ip) < i, ip => ShardIndex(ip) == i, ip => ShardIndex(ip) < i + 1,
                      now, maxIdle);
        SweepShard(i, now, maxIdle);
      }
      RetainedSame(was, ip => ShardIndex(ip) < NUM_SHARDS, _ => true, now, maxIdle);
    }

    method ClearIp(ip: IpAddr)
      requires Valid()
      modifies this`Contents, shards
      ensures Valid()
      ensures Contents == Apply(old(Contents), Clear(ip))
    {
      var idx := ShardIndex(ip);
      shards[idx] := shards[idx] - {ip};
      Contents := Contents - {ip};
    }

    method GetRecord(ip: IpAddr) returns (r: Option<IpStrikeRecord>)
      requires Valid()
      ensures r == if ip in Contents then Some(Contents[ip]) else None
    {
      var idx := ShardIndex(ip);
      r := if ip in shards[idx] then Some(shards[idx][ip]) else None;
    }

    method Len() returns (n: nat)
      requires Valid()
      ensures n == |Contents|
    {
      n := 0;
      ghost var seen: set<IpAddr> := {};
      for i := 0 to NUM_SHARDS
        invariant n == |seen|
        invariant forall ip :: ip in seen <==> ip in Contents && ShardIndex(ip) < i
      {
        var keys := shards[i].Keys;
        assert seen !! keys;
        assert |shards[i]| == |keys|;
        n := n + |shards[i]|;
        seen := seen + keys;
      }
      assert seen == Contents.Keys;
    }
  }

  // ----- runs and histories

  ghost function Run(ops: seq<Op>): Flat {
    if ops == [] then map[] else Apply(Run(ops[..|ops| - 1]), ops[|ops| - 1])
  }

  /** The strikes of one address and pool since the address was last cleared; sweeps leave no trace. */
  ghost function History(ops: seq<Op>, ip: IpAddr, pool: Pool): seq<Strike> {
    if ops == [] then []
    else HistoryStep(History(ops[..|ops| - 1], ip, pool), ops[|ops| - 1], ip, pool)
  }

  ghost function HistoryStep(before: seq<Strike>, op: Op, ip: IpAddr, pool: Pool): seq<Strike> {
    match op
    case Hit(ip', s) => if ip' == ip && s.pool == pool then before + [s] else before
    case Sweep(_, _, _) => before
    case Clear(ip') => if ip' == ip then [] else before
  }

  /** `t` may follow `s` in a run: same category, and no longer after it than the window of `t`. */
  ghost predicate Follows(s: Strike, t: Strike) {
    s.cat == t.cat && SaturatingSub(t.now, s.now) <= t.window
  }

  ghost predicate Unbroken(h: seq<Strike>) {
    forall i :: 0 < i < |h| ==> Follows(h[i - 1], h[i])
  }

  /** Length of the run a history ends with. */
  ghost function RunLength(h: seq<Strike>): nat {
    var n := |h|;
    if n == 0 then 0
    else if n > 1 && Follows(h[n - 2], h[n - 1]) then RunLength(h[..n - 1]) + 1
    else 1
  }

  lemma UnbrokenSnoc(h: seq<Strike>, s: Strike)
    ensures Unbroken(h + [s]) <==> Unbroken(h) && (h != [] ==> Follows(h[|h| - 1], s))
  {
    var g := h + [s];
    if Unbroken(g) {
      forall i | 0 < i < |h| ensures Follows(h[i - 1], h[i]) {
        assert Follows(g[i - 1], g[i]);
      }
      if h != [] { assert Follows(g[|h| - 1], g[|h|]); }
    }
  }

  /** It is the length of the longest unbroken suffix. */
  lemma {:induction false} RunLengthIsLongestSuffix(h: seq<Strike>, k: nat)
    requires k <= |h|
    ensures RunLength(h) <= |h|
    ensures Unbroken(h[|h| - k..]) <==> k <= RunLength(h)
  {
    var n := |h|;
    if k > 0 {
      var init := h[..n - 1];
      RunLengthIsLongestSuffix(init, k - 1);
      assert h[n - k..] == init[|init| - (k - 1)..] + [h[n - 1]];
      UnbrokenSnoc(init[|init| - (k - 1)..], h[n - 1]);
    } else if n > 0 {
      RunLengthIsLongestSuffix(h[..n - 1], 0);
    }
  }

  function Cap(n: nat): nat {
    if n <= U8_MAX then n else U8_MAX
  }

  /** The counter a history leaves behind. */
  ghost function CounterOf(h: seq<Strike>): Counter {
    if h == [] then FRESH else Counter(h[|h| - 1].now, Cap(RunLength(h)), h[|h| - 1].cat)
  }

  /** Hitting the counter of a history gives the counter of the longer history. */
  lemma CounterOfStep(h: seq<Strike>, s: Strike)
    requires (h != [] ==> h[|h| - 1].now >= 1)
    ensures CounterAfter(CounterOf(h), s) == CounterOf(h + [s])
  {
    assert (h + [s])[..|h|] == h;
  }

  ghost predicate ValidRun(ops: seq<Op>) {
    forall i :: 0 <= i < |ops| && ops[i].Hit? ==> ops[i].strike.Valid()
  }

  lemma {:induction false} HistoryValid(ops: seq<Op>, ip: IpAddr, pool: Pool)
    requires ValidRun(ops)
    ensures forall i :: 0 <= i < |History(ops, ip, pool)| ==>
              History(ops, ip, pool)[i].Valid() && History(ops, ip, pool)[i].pool == pool
  {
    if ops != [] {
      HistoryValid(ops[..|ops| - 1], ip, pool);
    }
  }

  /** Without sweeps each counter is the one its own history determines, whatever happened to other
      addresses and pools; the clock need not be monotone. */
  lemma {:induction false} CountersAreHistories(ops: seq<Op>, ip: IpAddr, pool: Pool)
    requires ValidRun(ops) && forall i :: 0 <= i < |ops| ==> !ops[i].Sweep?
    ensures Lookup(Run(ops), ip).Get(pool) == CounterOf(History(ops, ip, pool))
  {
    if ops != [] {
      var init := ops[..|ops| - 1];
      CountersAreHistories(init, ip, pool);
      HistoryValid(init, ip, pool);
      match ops[|ops| - 1] {
        case Hit(ip', s) =>
          if ip' == ip && s.pool == pool {
            CounterOfStep(History(init, ip, pool), s);
          }
        case Clear(_) =>
      }
    }
  }

  // ----- sweeps

  /** The latest time an operation was stamped with. */
  ghost function Clock(ops: seq<Op>): nat {
    if ops == [] then 0
    else
      var before := Clock(ops[..|ops| - 1]);
      match ops[|ops| - 1]
      case Hit(_, s) => Later(before, s.now)
      case Sweep(_, now, _) => Later(before, now)
      case Clear(_) => before
  }

  function Later(a: nat, b: nat): nat {
    if a <= b then b else a
  }

  /** The daemon's discipline: no strike is stamped before an earlier operation, and no strike's window
      exceeds the idle time a sweep tolerates. A sweep may be stamped before operations it comes after: it
      takes its time once and then works through the shards. */
  ghost predicate Disciplined(ops: seq<Op>, bound: nat) {
    ops != [] ==>
      Disciplined(ops[..|ops| - 1], bound) && Admissible(ops[|ops| - 1], Clock(ops[..|ops| - 1]), bound)
  }

  ghost predicate Admissible(op: Op, clock: nat, bound: nat) {
    match op
    case Hit(_, s) => s.Valid() && s.window <= bound && clock <= s.now
    case Sweep(_, _, maxIdle) => bound <= maxIdle
    case Clear(_) => true
  }

  lemma {:induction false} DisciplinedValid(ops: seq<Op>, bound: nat)
    requires Disciplined(ops, bound)
    ensures ValidRun(ops)
  {
    if ops != [] {
      DisciplinedValid(ops[..|ops| - 1], bound);
    }
  }

  /** A counter tells the truth about a history as far as strikes at `now` or later with windows up to
      `bound` can see: it is the history's, or it was forgotten after the history had expired. */
  ghost predicate Faithful(c: Counter, h: seq<Strike>, now: nat, bound: nat) {
    c == CounterOf(h) || (c == FRESH && h != [] && h[|h| - 1].now + bound < now)
  }

  /** A strike cannot tell a faithful counter from the true one. */
  lemma FaithfulHit(c: Counter, h: seq<Strike>, s: Strike, bound: nat)
    requires Faithful(c, h, s.now, bound) && s.window <= bound
    requires (h != [] ==> h[|h| - 1].now >= 1)
    ensures CounterAfter(c, s) == CounterOf(h + [s])
  {
    CounterOfStep(h, s);
    assert (h + [s])[..|h|] == h;
  }

  lemma SweptCounter(m: Flat, ip: IpAddr, pool: Pool, h: seq<Strike>, clock: nat, bound: nat,
                     covers: IpAddr -> bool, now: nat, maxIdle: nat)
    requires Faithful(Lookup(m, ip).Get(pool), h, clock, bound) && bound <= maxIdle
    requires h != [] ==> h[|h| - 1].now >= 1
    ensures Faithful(Lookup(Retained(m, covers, now, maxIdle), ip).Get(pool), h, Later(clock, now), bound)
  {
    if ip in m && covers(ip) && !Keep(m[ip], now, maxIdle) {
      assert IdleFor(m[ip].Get(pool), now) > maxIdle;
    }
  }

  lemma {:induction false} CountersFaithful(ops: seq<Op>, bound: nat, ip: IpAddr, pool: Pool)
    requires Disciplined(ops, bound)
    ensures Faithful(Lookup(Run(ops), ip).Get(pool), History(ops, ip, pool), Clock(ops), bound)
  {
    if ops != [] {
      var init := ops[..|ops| - 1];
      CountersFaithful(init, bound, ip, pool);
      DisciplinedValid(init, bound);
      HistoryValid(init, ip, pool);
      var m, h := Run(init), History(init, ip, pool);
      match ops[|ops| - 1] {
        case Hit(ip', s) =>
          if ip' == ip && s.pool == pool {
            FaithfulHit(Lookup(m, ip).Get(pool), h, s, bound);
          } else {
            assert Lookup(Run(ops), ip).Get(pool) == Lookup(m, ip).Get(pool);
          }
        case Sweep(covers, now, maxIdle) =>
          SweptCounter(m, ip, pool, h, Clock(init), bound, covers, now, maxIdle);
        case Clear(ip') =>
          assert ip' != ip ==> Lookup(Run(ops), ip) == Lookup(m, ip);
      }
    }
  }

  ghost function Stripped(ops: seq<Op>): seq<Op> {
    if ops == [] then []
    else
      var init, last := Stripped(ops[..|ops| - 1]), ops[|ops| - 1];
      if last.Sweep? then init else init + [last]
  }

  lemma HistorySnoc(ops: seq<Op>, op: Op, ip: IpAddr, pool: Pool)
    ensures History(ops + [op], ip, pool) == HistoryStep(History(ops, ip, pool), op, ip, pool)
  {
    assert (ops + [op])[..|ops|] == ops;
  }

  lemma {:induction false} HistoryIgnoresSweeps(ops: seq<Op>, ip: IpAddr, pool: Pool)
    ensures History(Stripped(ops), ip, pool) == History(ops, ip, pool)
  {
    if ops != [] {
      var init, last := ops[..|ops| - 1], ops[|ops| - 1];
      HistoryIgnoresSweeps(init, ip, pool);
      if !last.Sweep? {
        HistorySnoc(Stripped(init), last, ip, pool);
      }
    }
  }

  /** The results of all strikes of a run, in order. */
  ghost function Results(ops: seq<Op>): seq<StrikeResult> {
    if ops == [] then []
    else
      var init, last := ops[..|ops| - 1], ops[|ops| - 1];
      if last.Hit? then Results(init) + [ResultOf(Run(init), last.ip, last.strike)] else Results(init)
  }

  /** The verdict a history calls for: the threshold is reached exactly when the uncapped run reaches it. */
  ghost function Verdict(h: seq<Strike>, threshold: nat): StrikeResult {
    if RunLength(h) >= threshold then ThresholdReached(Cap(RunLength(h)))
    else UnderThreshold(RunLength(h), threshold)
  }

  /** Every strike of a disciplined run, swept or not, reports what its own history calls for. */
  lemma StrikeReportsHistory(ops: seq<Op>, bound: nat, ip: IpAddr, s: Strike)
    requires Disciplined(ops + [Hit(ip, s)], bound)
    ensures ResultOf(Run(ops), ip, s) == Verdict(History(ops, ip, s.pool) + [s], s.threshold)
  {
    assert (ops + [Hit(ip, s)])[..|ops|] == ops;
    CountersFaithful(ops, bound, ip, s.pool);
    DisciplinedValid(ops, bound);
    HistoryValid(ops, ip, s.pool);
    FaithfulHit(Lookup(Run(ops), ip).Get(s.pool), History(ops, ip, s.pool), s, bound);
  }

  /** The same for any run without sweeps, even with a clock that runs backwards. */
  lemma StrikeReportsHistoryUnswept(ops: seq<Op>, ip: IpAddr, s: Strike)
    requires ValidRun(ops + [Hit(ip, s)]) && forall i :: 0 <= i < |ops| ==> !ops[i].Sweep?
    ensures ResultOf(Run(ops), ip, s) == Verdict(History(ops, ip, s.pool) + [s], s.threshold)
  {
    var all := ops + [Hit(ip, s)];
    assert all[|ops|] == Hit(ip, s);
    forall i | 0 <= i < |ops| && ops[i].Hit? ensures ops[i].strike.Valid() {
      assert all[i] == ops[i];
    }
    CountersAreHistories(ops, ip, s.pool);
    HistoryValid(ops, ip, s.pool);
    CounterOfStep(History(ops, ip, s.pool), s);
  }

  lemma {:induction false} StrippedDisciplined(ops: seq<Op>, bound: nat)
    requires Disciplined(ops, bound)
    ensures Disciplined(Stripped(ops), bound) && Clock(Stripped(ops)) <= Clock(ops)
  {
    if ops != [] {
      var init, last := ops[..|ops| - 1], ops[|ops| - 1];
      StrippedDisciplined(init, bound);
      if !last.Sweep? {
        assert Stripped(ops)[..|Stripped(init)|] == Stripped(init);
      }
    }
  }

  lemma ResultsSnoc(ops: seq<Op>, op: Op)
    ensures Results(ops + [op])
            == Results(ops) + if op.Hit? then [ResultOf(Run(ops), op.ip, op.strike)] else []
  {
    assert (ops + [op])[..|ops|] == ops;
  }

  lemma DisciplinedSnoc(ops: seq<Op>, op: Op, bound: nat)
    requires Disciplined(ops, bound) && Admissible(op, Clock(ops), bound)
    ensures Disciplined(ops + [op], bound)
    ensures Clock(ops + [op])
         == if op.Hit? then op.strike.now else if op.Sweep? then Later(Clock(ops), op.now) else Clock(ops)
  {
    assert (ops + [op])[..|ops|] == ops;
  }

  /** One strike: its result does not depend on whether the tracker was swept before. */
  lemma ResultIgnoresSweeps(ops: seq<Op>, bound: nat, ip: IpAddr, s: Strike)
    requires Disciplined(ops, bound) && Admissible(Hit(ip, s), Clock(ops), bound)
    ensures ResultOf(Run(ops), ip, s) == ResultOf(Run(Stripped(ops)), ip, s)
  {
    DisciplinedSnoc(ops, Hit(ip, s), bound);
    StrikeReportsHistory(ops, bound, ip, s);
    StrippedDisciplined(ops, bound);
    DisciplinedSnoc(Stripped(ops), Hit(ip, s), bound);
    StrikeReportsHistory(Stripped(ops), bound, ip, s);
    HistoryIgnoresSweeps(ops, ip, s.pool);
  }

  /** Sweeps are unobservable: removing every sweep from a disciplined run changes no strike's result. */
  lemma {:induction false} SweepsUnobservable(ops: seq<Op>, bound: nat)
    requires Disciplined(ops, bound)
    ensures Results(Stripped(ops)) == Results(ops)
  {
    if ops != [] {
      var init, last := ops[..|ops| - 1], ops[|ops| - 1];
      assert ops == init + [last];
      SweepsUnobservable(init, bound);
      ResultsSnoc(init, last);
      if !last.Sweep? {
        ResultsSnoc(Stripped(init), last);
        if last.Hit? {
          ResultIgnoresSweeps(init, bound, last.ip, last.strike);
        }
      }
    }
  }

  /** So two disciplined runs that differ only in their sweeps report the same. */
  lemma SweepPlacementIrrelevant(ops: seq<Op>, ops': seq<Op>, bound: nat)
    requires Disciplined(ops, bound) && Disciplined(ops', bound) && Stripped(ops) == Stripped(ops')
    ensures Results(ops) == Results(ops')
  {
    SweepsUnobservable(ops, bound);
    SweepsUnobservable(ops', bound);
  }

  /** In time order, with windows up to `window` and sweeps that tolerate `maxIdle`. */
  ghost predicate Timed(ops: seq<Op>, window: nat, maxIdle: nat) {
    ops != [] ==>
      var init, last := ops[..|ops| - 1], ops[|ops| - 1];
      && Timed(init, window, maxIdle)
      && (last.Hit? ==> last.strike.Valid() && last.strike.window <= window && Clock(init) <= last.strike.now)
      && (last.Sweep? ==> last.maxIdle == maxIdle)
  }

  lemma {:induction false} TimedDisciplined(ops: seq<Op>, window: nat, maxIdle: nat)
    requires Timed(ops, window, maxIdle) && window <= maxIdle
    ensures Disciplined(ops, window)
  {
    if ops != [] {
      TimedDisciplined(ops[..|ops| - 1], window, maxIdle);
    }
  }

  /** Two strikes with a sweep between them, which has just stopped tolerating the first. */
  function SweptPair(ip: IpAddr, window: nat, maxIdle: nat): seq<Op> {
    var t := maxIdle + 2;
    [Hit(ip, Strike(Critical, 0, 2, window, 1)), Sweep(_ => true, t, maxIdle),
     Hit(ip, Strike(Critical, 0, 2, window, t))]
  }

  lemma RunOne(op: Op)
    ensures Run([op]) == Apply(map[], op)
    ensures Stripped([op]) == if op.Sweep? then [] else [op]
    ensures Results([op]) == if op.Hit? then [ResultOf(map[], op.ip, op.strike)] else []
  {
    assert [op][..0] == [];
  }

  lemma RunSnoc(ops: seq<Op>, op: Op)
    ensures Run(ops + [op]) == Apply(Run(ops), op)
    ensures Stripped(ops + [op]) == if op.Sweep? then Stripped(ops) else Stripped(ops) + [op]
  {
    assert (ops + [op])[..|ops|] == ops;
  }

  lemma TimedSnoc(ops: seq<Op>, op: Op, window: nat, maxIdle: nat)
    requires Timed(ops, window, maxIdle)
    requires op.Hit? ==> op.strike.Valid() && op.strike.window <= window && Clock(ops) <= op.strike.now
    requires op.Sweep? ==> op.maxIdle == maxIdle
    ensures Timed(ops + [op], window, maxIdle)
    ensures Clock(ops + [op])
         == Later(Clock(ops), if op.Hit? then op.strike.now else if op.Sweep? then op.now else Clock(ops))
  {
    assert (ops + [op])[..|ops|] == ops;
  }

  lemma SweptPairTimed(ip: IpAddr, window: nat, maxIdle: nat)
    ensures Timed(SweptPair(ip, window, maxIdle), window, maxIdle)
  {
    var ops := SweptPair(ip, window, maxIdle);
    TimedSnoc([], ops[0], window, maxIdle);
    assert [] + [ops[0]] == [ops[0]] && [ops[0]] + [ops[1]] == [ops[0], ops[1]];
    TimedSnoc([ops[0]], ops[1], window, maxIdle);
    TimedSnoc([ops[0], ops[1]], ops[2], window, maxIdle);
    assert [ops[0], ops[1]] + [ops[2]] == ops;
  }

  /** A window longer than the idle time lets a sweep be seen. */
  lemma LongWindowSeesSweep(ip: IpAddr, window: nat, maxIdle: nat)
    requires maxIdle < window && maxIdle < U64_MAX
    ensures var ops := SweptPair(ip, window, maxIdle);
            Timed(ops, window, maxIdle) && Results(Stripped(ops)) != Results(ops)
  {
    var ops := SweptPair(ip, window, maxIdle);
    var a, sweep, b := ops[0], ops[1], ops[2];
    SweptPairTimed(ip, window, maxIdle);
    assert [a] + [sweep] == [a, sweep] && [a, sweep] + [b] == ops;
    RunOne(a);
    RunSnoc([a], sweep);
    RunSnoc([a, sweep], b);
    assert Run([a]) == map[ip := IpStrikeRecord(Counter(1, 1, 0), FRESH, FRESH)];
    assert Run([a, sweep]) == map[];
    ResultsSnoc([a, sweep], b);
    ResultsSnoc([a], b);
    assert Results(ops)[|Results(ops)| - 1] == UnderThreshold(1, 2);
    assert Results([a] + [b])[|Results([a] + [b])| - 1] == ThresholdReached(2);
  }

  /** So the bound is exact: sweeps that tolerate `maxIdle` are unobservable in every run with windows up to
      `window` if and only if no window is longer than that. */
  lemma SweepsUnobservableIff(window: nat, maxIdle: nat)
    requires maxIdle < U64_MAX
    ensures (forall ops :: Timed(ops, window, maxIdle) ==> Results(Stripped(ops)) == Results(ops))
       <==> window <= maxIdle
  {
    if window <= maxIdle {
      forall ops | Timed(ops, window, maxIdle) ensures Results(Stripped(ops)) == Results(ops) {
        TimedDisciplined(ops, window, maxIdle);
        SweepsUnobservable(ops, window);
      }
    } else {
      LongWindowSeesSweep(V4(1), window, maxIdle);
    }
  }
}
