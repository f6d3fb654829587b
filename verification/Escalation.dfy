/** The escalation engine (src/engine/escalation.rs): offences counted in an anchored window per address,
    and a tier that rises with each counted ban. Times are parameters; instants never run backwards. */
module Escalation {
  import opened Bits
  import opened Cidr
  import opened Wrappers

  datatype Config = Config(findTime: nat, maxRetry: nat, tiers: seq<Option<nat>>)

  datatype BanRecord = BanRecord(ip: IpAddr, tierLevel: nat, bannedAt: nat, expiresAt: Option<nat>, reason: string)

  /** One call: `now` is the wall clock stamped on a ban, `at` the monotonic instant used for counting. */
  datatype Offense = Offense(ip: IpAddr, reason: string, instant: bool, now: nat, at: nat)

  datatype Entry = Entry(count: nat, anchor: nat)

  // ----- one address

  /** What the engine remembers of one address: its running count, and the tier its next ban gets. */
  datatype Tally = Tally(entry: Option<Entry>, nextTier: nat)

  const FRESH := Tally(None, 0)

  function LastTier(cfg: Config): nat {
    if |cfg.tiers| == 0 then 0 else |cfg.tiers| - 1
  }

  function Counted(cfg: Config, t: Tally, at: nat): Entry {
    var e := if t.entry.Some? then t.entry.value else Entry(0, at);
    if SaturatingSub(at, e.anchor) > cfg.findTime then Entry(1, at) else Entry(e.count + 1, e.anchor)
  }

  function Expiry(cfg: Config, tier: nat, now: nat): Option<nat> {
    if tier < |cfg.tiers| && cfg.tiers[tier].Some? then Some(now + cfg.tiers[tier].value) else None
  }

  function TallyStep(cfg: Config, t: Tally, o: Offense): (Tally, Option<BanRecord>) {
    if o.instant then
      (t.(entry := None), Some(BanRecord(o.ip, LastTier(cfg), o.now, None, o.reason)))
    else
      var e := Counted(cfg, t, o.at);
      if e.count >= cfg.maxRetry then
        var tier := if t.nextTier < |cfg.tiers| then t.nextTier else LastTier(cfg);
        (Tally(None, tier + 1), Some(BanRecord(o.ip, tier, o.now, Expiry(cfg, tier, o.now), o.reason)))
      else (t.(entry := Some(e)), None)
  }

  // ----- the engine

  class EscalationEngine {
    const cfg: Config
    var offenses: map<IpAddr, Entry>
    var banHistory: map<IpAddr, nat>

    constructor (cfg: Config)
      ensures this.cfg == cfg && forall ip :: Of(ip) == FRESH
    {
      this.cfg := cfg;
      offenses := map[];
      banHistory := map[];
    }

    ghost function Of(ip: IpAddr): Tally
      reads this
    {
      Tally(if ip in offenses then Some(offenses[ip]) else None, if ip in banHistory then banHistory[ip] else 0)
    }

    method RecordOffense(ip: IpAddr, reason: string, instantPermanent: bool, now: nat, nowInst: nat)
      returns (r: Option<BanRecord>)
      modifies this
      ensures (Of(ip), r) == TallyStep(cfg, old(Of(ip)), Offense(ip, reason, instantPermanent, now, nowInst))
      ensures forall other :: other != ip ==> Of(other) == old(Of(other))
    {
      if instantPermanent {
        var record := BanRecord(ip, if |cfg.tiers| >= 1 then |cfg.tiers| - 1 else 0, now, None, reason);
        offenses := offenses - {ip};
        return Some(record);
      }
      var entry := if ip in offenses then offenses[ip] else Entry(0, nowInst);
      if SaturatingSub(nowInst, entry.anchor) > cfg.findTime {
        entry := Entry(1, nowInst);
      } else {
        entry := entry.(count := entry.count + 1);
      }
      offenses := offenses[ip := entry];
      if entry.count >= cfg.maxRetry {
        offenses := offenses - {ip};
        var prevTier := if ip in banHistory then banHistory[ip] else 0;
        var tierLevel := if prevTier < |cfg.tiers| then prevTier
                         else if |cfg.tiers| >= 1 then |cfg.tiers| - 1 else 0;
        banHistory := banHistory[ip := tierLevel + 1];
        var expiresAt := if tierLevel < |cfg.tiers| && cfg.tiers[tierLevel].Some?
                         then Some(now + cfg.tiers[tierLevel].value) else None;
        return Some(BanRecord(ip, tierLevel, now, expiresAt, reason));
      }
      r := None;
    }
  }

  // ----- runs: the engine after any list of calls, and the bans it issued

  ghost function EngineAfter(cfg: Config, calls: seq<Offense>): map<IpAddr, Tally> {
    if calls == [] then map[]
    else
      var m, o := EngineAfter(cfg, calls[..|calls| - 1]), calls[|calls| - 1];
      m[o.ip := TallyStep(cfg, TallyIn(m, o.ip), o).0]
  }

  ghost function TallyIn(m: map<IpAddr, Tally>, ip: IpAddr): Tally {
    if ip in m then m[ip] else FRESH
  }

  /** The answers to the calls about one address, in order. */
  ghost function AnswersTo(cfg: Config, calls: seq<Offense>, ip: IpAddr): seq<Option<BanRecord>> {
    if calls == [] then []
    else
      var init, o := calls[..|calls| - 1], calls[|calls| - 1];
      if o.ip == ip then AnswersTo(cfg, init, ip) + [TallyStep(cfg, TallyIn(EngineAfter(cfg, init), ip), o).1]
      else AnswersTo(cfg, init, ip)
  }

  ghost function CallsAbout(calls: seq<Offense>, ip: IpAddr): seq<Offense> {
    if calls == [] then []
    else
      var init, o := CallsAbout(calls[..|calls| - 1], ip), calls[|calls| - 1];
      if o.ip == ip then init + [o] else init
  }

  /** The tally of an address after the first `i` of its own offences. */
  ghost function After(cfg: Config, h: seq<Offense>, i: nat): Tally
    requires i <= |h|
  {
    if i == 0 then FRESH else TallyStep(cfg, After(cfg, h, i - 1), h[i - 1]).0
  }

  ghost function Answer(cfg: Config, h: seq<Offense>, i: nat): Option<BanRecord>
    requires i < |h|
  {
    TallyStep(cfg, After(cfg, h, i), h[i]).1
  }

  lemma {:induction false} AfterPrefix(cfg: Config, g: seq<Offense>, more: seq<Offense>, i: nat)
    requires i <= |g|
    ensures After(cfg, g + more, i) == After(cfg, g, i)
  {
    if i > 0 {
      AfterPrefix(cfg, g, more, i - 1);
    }
  }

  /** Addresses do not disturb each other: the engine answers each as if only its own calls were made. */
  lemma {:induction false} AddressesIndependent(cfg: Config, calls: seq<Offense>, ip: IpAddr)
    ensures var h := CallsAbout(calls, ip);
            && TallyIn(EngineAfter(cfg, calls), ip) == After(cfg, h, |h|)
            && |AnswersTo(cfg, calls, ip)| == |h|
            && (forall i :: 0 <= i < |h| ==> AnswersTo(cfg, calls, ip)[i] == Answer(cfg, h, i))
  {
    if calls != [] {
      var init, o := calls[..|calls| - 1], calls[|calls| - 1];
      AddressesIndependent(cfg, init, ip);
      if o.ip == ip {
        var g := CallsAbout(init, ip);
        forall i | 0 <= i <= |g| ensures After(cfg, g + [o], i) == After(cfg, g, i) {
          AfterPrefix(cfg, g, [o], i);
        }
      }
    }
  }

  // ----- what the count stands for

  ghost predicate Nondecreasing(h: seq<Offense>) {
    forall i, j :: 0 <= i < j < |h| ==> h[i].at <= h[j].at
  }

  /** The i-th offence was counted and not banned. */
  ghost predicate Quiet(cfg: Config, h: seq<Offense>, i: nat)
    requires i < |h|
  {
    !h[i].instant && Answer(cfg, h, i).None?
  }

  /** The `n` offences before index `i` were counted, none of them banned, and all lie in the window that
      the first of them opened. */
  ghost predicate Pending(cfg: Config, h: seq<Offense>, i: nat, n: nat)
    requires i <= |h|
  {
    && n <= i
    && forall k {:trigger Quiet(cfg, h, k)} :: i - n <= k < i
         ==> Quiet(cfg, h, k) && SaturatingSub(h[k].at, h[i - n].at) <= cfg.findTime
  }

  /** One more offence is either pending under the counted entry, or it closes the account. */
  lemma OneMore(cfg: Config, h: seq<Offense>, i: nat)
    requires i < |h|
    ensures var e := Counted(cfg, After(cfg, h, i), h[i].at);
            var quiet := !h[i].instant && e.count < cfg.maxRetry;
            && After(cfg, h, i + 1).entry == (if quiet then Some(e) else None)
            && (Quiet(cfg, h, i) <==> quiet)
  {
  }

  lemma PendingGrows(cfg: Config, h: seq<Offense>, i: nat, n: nat)
    requires i < |h| && Quiet(cfg, h, i) && Pending(cfg, h, i, n)
    requires n > 0 ==> SaturatingSub(h[i].at, h[i - n].at) <= cfg.findTime
    ensures Pending(cfg, h, i + 1, n + 1)
  {
  }

  ghost predicate EntryMeans(cfg: Config, h: seq<Offense>, i: nat, e: Entry)
    requires i <= |h|
  {
    1 <= e.count <= i && e.count < cfg.maxRetry && h[i - e.count].at == e.anchor && Pending(cfg, h, i, e.count)
  }

  lemma EntryGrows(cfg: Config, h: seq<Offense>, i: nat, t: Tally)
    requires i < |h| && (t.entry.Some? ==> EntryMeans(cfg, h, i, t.entry.value))
    requires Quiet(cfg, h, i) && Counted(cfg, t, h[i].at).count < cfg.maxRetry
    ensures EntryMeans(cfg, h, i + 1, Counted(cfg, t, h[i].at))
  {
    PendingGrows(cfg, h, i, Counted(cfg, t, h[i].at).count - 1);
  }

  /** A running count is exactly the number of pending offences, anchored at the first. */
  lemma {:induction false} EntryMeaning(cfg: Config, h: seq<Offense>, i: nat)
    requires Nondecreasing(h) && i <= |h|
    ensures After(cfg, h, i).entry.Some? ==> EntryMeans(cfg, h, i, After(cfg, h, i).entry.value)
  {
    if i > 0 {
      EntryMeaning(cfg, h, i - 1);
      OneMore(cfg, h, i - 1);
      if After(cfg, h, i).entry.Some? {
        EntryGrows(cfg, h, i - 1, After(cfg, h, i - 1));
      }
    }
  }

  /** Every counted ban is backed by exactly `maxRetry` offences: the ban itself and the ones pending before
      it, none banned in between, all within `findTime` of the first. */
  lemma BanIsBacked(cfg: Config, h: seq<Offense>, i: nat)
    requires cfg.maxRetry >= 1 && Nondecreasing(h) && i < |h|
    requires !h[i].instant && Answer(cfg, h, i).Some?
    ensures Pending(cfg, h, i, cfg.maxRetry - 1)
    ensures h[i].at - h[i - (cfg.maxRetry - 1)].at <= cfg.findTime
  {
    EntryMeaning(cfg, h, i);
    OneMore(cfg, h, i);
  }

  // ----- the guarantee

  /** No offence in [lo, hi) was banned, and all of them lie within `findTime` of the first. */
  ghost predicate Spared(cfg: Config, h: seq<Offense>, lo: nat, hi: nat) {
    && lo <= hi <= |h|
    && (forall i {:trigger Quiet(cfg, h, i)} :: lo <= i < hi ==> Quiet(cfg, h, i) && h[i].at - h[lo].at <= cfg.findTime)
  }

  /** How many of `m` spared offences the running count may have lost. */
  ghost predicate Accounts(cfg: Config, e: Entry, start: nat, m: nat) {
    && e.count < cfg.maxRetry
    && (if e.anchor < start then m + 1 <= e.count
        else m <= e.count || m + 2 <= e.count + cfg.maxRetry)
  }

  lemma AccountsGrow(cfg: Config, t: Tally, start: nat, m: nat, at: nat)
    requires t.entry.Some? && Accounts(cfg, t.entry.value, start, m) && start <= at <= start + cfg.findTime
    requires Counted(cfg, t, at).count < cfg.maxRetry
    ensures Accounts(cfg, Counted(cfg, t, at), start, m + 1)
  {
  }

  lemma AccountsStart(cfg: Config, t: Tally, start: nat)
    requires t.entry.Some? ==> t.entry.value.count >= 1
    requires Counted(cfg, t, start).count < cfg.maxRetry
    ensures Accounts(cfg, Counted(cfg, t, start), start, 1)
  {
  }

  /** The count a spared address must have run up: the window may have been reset once, and before that
      at most `maxRetry - 2` of the spared offences can have been counted. */
  lemma {:induction false} SparedCount(cfg: Config, h: seq<Offense>, lo: nat, hi: nat)
    requires Nondecreasing(h) && Spared(cfg, h, lo, hi) && lo < hi
    ensures var e := After(cfg, h, hi).entry; e.Some? && Accounts(cfg, e.value, h[lo].at, hi - lo)
    decreases hi
  {
    OneMore(cfg, h, hi - 1);
    if hi - 1 > lo {
      SparedCount(cfg, h, lo, hi - 1);
      AccountsGrow(cfg, After(cfg, h, hi - 1), h[lo].at, hi - 1 - lo, h[hi - 1].at);
    } else {
      EntryMeaning(cfg, h, lo);
      AccountsStart(cfg, After(cfg, h, lo), h[lo].at);
    }
  }

  /** The guarantee: of any `2 * maxRetry - 2` consecutive offences of an address within `findTime`
      (one, when `maxRetry` is one) some offence is banned. */
  lemma ConsecutiveOffencesBan(cfg: Config, h: seq<Offense>, lo: nat, hi: nat)
    requires cfg.maxRetry >= 1 && Nondecreasing(h) && lo < hi <= |h|
    requires forall i :: lo <= i < hi ==> !h[i].instant
    requires h[hi - 1].at - h[lo].at <= cfg.findTime
    requires hi - lo >= 2 * cfg.maxRetry - 2
    ensures exists i :: lo <= i < hi && Answer(cfg, h, i).Some?
  {
    if forall i :: lo <= i < hi ==> Answer(cfg, h, i).None? {
      assert Spared(cfg, h, lo, hi) by {
        forall i | lo <= i < hi ensures Quiet(cfg, h, i) && h[i].at <= h[hi - 1].at {
          assert Answer(cfg, h, i).None?;
        }
      }
      SparedCount(cfg, h, lo, hi);
    }
  }

  /** The same for an address among others: the calls about it, wherever they fall in the run. */
  lemma GuaranteeAmongOthers(cfg: Config, calls: seq<Offense>, ip: IpAddr, lo: nat, hi: nat)
    requires var h := CallsAbout(calls, ip);
             && cfg.maxRetry >= 1 && Nondecreasing(h) && lo < hi <= |h|
             && (forall i :: lo <= i < hi ==> !h[i].instant)
             && h[hi - 1].at - h[lo].at <= cfg.findTime && hi - lo >= 2 * cfg.maxRetry - 2
    ensures |AnswersTo(cfg, calls, ip)| == |CallsAbout(calls, ip)|
    ensures exists i :: lo <= i < hi && AnswersTo(cfg, calls, ip)[i].Some?
  {
    AddressesIndependent(cfg, calls, ip);
    var h := CallsAbout(calls, ip);
    ConsecutiveOffencesBan(cfg, h, lo, hi);
    var i :| lo <= i < hi && Answer(cfg, h, i).Some?;
    assert AnswersTo(cfg, calls, ip)[i].Some?;
  }

  // ----- the bound is tight

  /** One offence at time 0, then `maxRetry - 2` at `findTime`, then `maxRetry - 1` one unit later. */
  ghost function Straddling(cfg: Config, ip: IpAddr): seq<Offense>
    requires cfg.maxRetry >= 2
  {
    seq(2 * cfg.maxRetry - 2, i =>
      Offense(ip, "", false, 0, if i == 0 then 0 else if i < cfg.maxRetry - 1 then cfg.findTime else cfg.findTime + 1))
  }

  ghost function StraddlingEntry(cfg: Config, i: nat): Option<Entry>
    requires cfg.maxRetry >= 2
  {
    var r := cfg.maxRetry;
    if i == 0 then None else if i < r then Some(Entry(i, 0)) else Some(Entry(i - (r - 1), cfg.findTime + 1))
  }

  lemma StraddlingStep(cfg: Config, ip: IpAddr, t: Tally, i: nat)
    requires cfg.maxRetry >= 2 && i < 2 * cfg.maxRetry - 2 && t.entry == StraddlingEntry(cfg, i)
    ensures var o := Straddling(cfg, ip)[i];
            Some(Counted(cfg, t, o.at)) == StraddlingEntry(cfg, i + 1) && Counted(cfg, t, o.at).count < cfg.maxRetry
  {
  }

  lemma {:induction false} StraddlingQuiet(cfg: Config, ip: IpAddr, i: nat)
    requires cfg.maxRetry >= 2 && i <= 2 * cfg.maxRetry - 2
    ensures After(cfg, Straddling(cfg, ip), i).entry == StraddlingEntry(cfg, i)
    ensures forall k :: 0 <= k < i ==> Quiet(cfg, Straddling(cfg, ip), k)
  {
    if i > 0 {
      StraddlingQuiet(cfg, ip, i - 1);
      OneMore(cfg, Straddling(cfg, ip), i - 1);
      StraddlingStep(cfg, ip, After(cfg, Straddling(cfg, ip), i - 1), i - 1);
    }
  }

  /** One offence fewer is not enough: an address can commit `2 * maxRetry - 3` consecutive offences within
      one time unit and never be banned, because the window an older offence opened expires among them. */
  lemma GuaranteeIsTight(cfg: Config, ip: IpAddr) returns (h: seq<Offense>)
    requires cfg.maxRetry >= 2 && cfg.findTime >= 1
    ensures Nondecreasing(h) && |h| == 1 + (2 * cfg.maxRetry - 3)
    ensures forall i :: 0 <= i < |h| ==> h[i].ip == ip && Quiet(cfg, h, i)
    ensures h[|h| - 1].at - h[1].at <= cfg.findTime
  {
    h := Straddling(cfg, ip);
    StraddlingQuiet(cfg, ip, |h|);
  }

  // ----- tiers

  /** Counted bans among the first `i` offences. */
  ghost function CountedBans(cfg: Config, h: seq<Offense>, i: nat): nat
    requires i <= |h|
  {
    if i == 0 then 0
    else CountedBans(cfg, h, i - 1) + if !h[i - 1].instant && Answer(cfg, h, i - 1).Some? then 1 else 0
  }

  function Min(a: nat, b: nat): nat {
    if a <= b then a else b
  }

  lemma {:induction false} TierMeaning(cfg: Config, h: seq<Offense>, i: nat)
    requires i <= |h|
    ensures After(cfg, h, i).nextTier == Min(CountedBans(cfg, h, i), LastTier(cfg) + 1)
  {
    if i > 0 {
      TierMeaning(cfg, h, i - 1);
    }
  }

  /** What a ban says about the offence that brought it, as the n-th counted ban of its address (an instant ban
      is not counted): its tier is n - 1, or the last tier once those run out, and it ends that tier's duration
      after the offence, or never where the tier has none. Instant bans get the last tier and never end. */
  ghost predicate BanOf(cfg: Config, ban: BanRecord, o: Offense, n: nat) {
    && ban.ip == o.ip && ban.bannedAt == o.now && ban.reason == o.reason
    && if o.instant then ban.tierLevel == LastTier(cfg) && ban.expiresAt == None
       else n >= 1 && ban.tierLevel == Min(n - 1, LastTier(cfg)) && EndsAfterTier(cfg, ban, o.now)
  }

  ghost predicate EndsAfterTier(cfg: Config, ban: BanRecord, now: nat) {
    var k := ban.tierLevel;
    && (ban.expiresAt.Some? <==> k < |cfg.tiers| && cfg.tiers[k].Some?)
    && (ban.expiresAt.Some? ==> ban.expiresAt.value == now + cfg.tiers[k].value)
  }

  /** Every ban is that of its offence, counted among the counted bans of its address. */
  lemma NthBanTier(cfg: Config, h: seq<Offense>, i: nat)
    requires i < |h|
    ensures h[i].instant ==> Answer(cfg, h, i).Some? && CountedBans(cfg, h, i + 1) == CountedBans(cfg, h, i)
    ensures Answer(cfg, h, i).Some? ==> BanOf(cfg, Answer(cfg, h, i).value, h[i], CountedBans(cfg, h, i + 1))
  {
    TierMeaning(cfg, h, i);
  }

  /** The same among calls about other addresses. */
  lemma NthBanAmongOthers(cfg: Config, calls: seq<Offense>, ip: IpAddr, i: nat)
    requires i < |CallsAbout(calls, ip)|
    ensures var h, answers := CallsAbout(calls, ip), AnswersTo(cfg, calls, ip);
            && |answers| == |h| && h[i].ip == ip
            && (answers[i].Some? ==> BanOf(cfg, answers[i].value, h[i], CountedBans(cfg, h, i + 1)))
  {
    AddressesIndependent(cfg, calls, ip);
    NthBanTier(cfg, CallsAbout(calls, ip), i);
    CallsHaveAddress(calls, ip);
  }

  lemma {:induction false} CallsHaveAddress(calls: seq<Offense>, ip: IpAddr)
    ensures forall i :: 0 <= i < |CallsAbout(calls, ip)| ==> CallsAbout(calls, ip)[i].ip == ip
  {
    if calls != [] {
      CallsHaveAddress(calls[..|calls| - 1], ip);
    }
  }
}
