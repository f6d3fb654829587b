/** The request pipeline (src/intelligence/pipeline.rs) and its construction from the store
    (src/engine/pipeline.rs), against the firewall rule compiled from the same store, and the daemon's sweeps. */
module Pipeline {
  import opened Bits
  import opened Cidr
  import opened Wrappers
  import Store
  import Expression
  import Normalize
  import Probes
  import RuleReader
  import Strikes
  import Text

  datatype BotCategory =
    | AdsVerification | Search | AiCrawler | Monitoring | FeedFetching | SecurityTesting | SocialPreview
    | BadScraper | GenericTools | Empty | BrowserOrUnknown

  /** Library matchers and literal pattern lists, as arbitrary functions. */
  datatype Classifiers = Classifiers(
    headerExploit: string -> Option<string>,
    botCategory: string -> BotCategory,
    categoryName: string -> Option<BotCategory>,
    scannerMethod: string -> bool,
    harmfulReferer: string -> Option<string>,
    allowedEndpoint: string -> bool,
    verb: string -> Probes.Verb,
    pathFacts: string -> Probes.PathFacts)

  datatype Policy = Policy(whitelistedIps: set<IpAddr>, bannedIps: set<IpAddr>, blockedAsns: set<u32>,
                           restrictedAsns: set<u32>, allowedRegions: set<string>,
                           blockedCategories: set<BotCategory>, classifiers: Classifiers)

  datatype AsnInfo = AsnInfo(asn: u32, country: string)

  datatype Request = Request(ip: IpAddr, asnInfo: Option<AsnInfo>, userAgent: string, verb: string, uri: string,
                             status: nat, referer: string)

  datatype SshEvent = Ignore | ScannerProbe(ip: IpAddr, reason: string) | AuthFailure(ip: IpAddr)

  datatype Reason =
    | BlockedAsn(asn: u32)
    | RestrictedRegion(asn: u32, country: string)
    | HeaderExploit(what: string)
    | BlockedBot(bot: BotCategory)
    | ScannerMethod(name: string)
    | HarmfulReferer(what: string)
    | ImmediateMalicious
    | Instant(category: Probes.Category)
    | SharedThreshold(category: Probes.Category, count: nat)
    | IsolatedThreshold(category: Probes.Category, count: nat)
    | ToolProbe(bot: BotCategory)
    | ToolErrorBurst(bot: BotCategory)
    | SshProbe(what: string)
    | SshAuthFailures(count: nat)

  datatype Action = Allow | DropBanned | Ban(reason: Reason, permanent: bool)

  predicate IsLoopbackOrPrivate(ip: IpAddr) {
    match ip
    case V4(a) =>
      var n := a as nat;
      var o0, o1 := n / 0x100_0000, n / 0x1_0000 % 0x100;
      || o0 == 127 || o0 == 10 || (o0 == 172 && 16 <= o1 <= 31) || (o0 == 192 && o1 == 168)
      || (o0 == 100 && 64 <= o1 <= 127) || (o0 == 169 && o1 == 254)
    case V6(a) =>
      var segment0 := a as nat / 0x1_0000_0000_0000_0000_0000_0000_0000;
      a == 1 || 0xfc00 <= segment0 <= 0xfdff || 0xfe80 <= segment0 <= 0xfebf
  }

  /** Loopback, the three private ranges, shared address space and link-local addresses. */
  const PRIVATE_BLOCKS: seq<Block> :=
    [Block(0x7F00_0000, 8), Block(0x0A00_0000, 8), Block(0xAC10_0000, 12), Block(0xC0A8_0000, 16),
     Block(0x6440_0000, 10), Block(0xA9FE_0000, 16)]

  /** The octet tests are membership in those blocks. */
  lemma PrivateRanges(a: u32)
    ensures IsLoopbackOrPrivate(V4(a)) <==> exists k :: 0 <= k < |PRIVATE_BLOCKS| && PRIVATE_BLOCKS[k].Has(a as nat)
  {
    BlockSizes();
    var n := a as nat;
    TwoOctets(n, 127, 0, 255);
    TwoOctets(n, 10, 0, 255);
    TwoOctets(n, 172, 16, 31);
    TwoOctets(n, 192, 168, 168);
    TwoOctets(n, 100, 64, 127);
    TwoOctets(n, 169, 254, 254);
    PrivateBlockEnds(n);
  }

  /** The addresses whose first octet is `first` and whose second lies between `low` and `high`. */
  lemma TwoOctets(n: nat, first: nat, low: nat, high: nat)
    requires low <= high < 0x100
    ensures n / 0x100_0000 == first && low <= n / 0x1_0000 % 0x100 <= high
       <==> first * 0x100_0000 + low * 0x1_0000 <= n < first * 0x100_0000 + (high + 1) * 0x1_0000
  {
    var q := n / 0x1_0000;
    assert n / 0x100_0000 == q / 0x100 && q == q / 0x100 * 0x100 + q % 0x100;
  }

  lemma PrivateBlockEnds(n: nat)
    ensures var b := PRIVATE_BLOCKS;
            && (b[0].Has(n) <==> 127 * 0x100_0000 <= n < 128 * 0x100_0000)
            && (b[1].Has(n) <==> 10 * 0x100_0000 <= n < 11 * 0x100_0000)
            && (b[2].Has(n) <==> 172 * 0x100_0000 + 16 * 0x1_0000 <= n < 172 * 0x100_0000 + 32 * 0x1_0000)
            && (b[3].Has(n) <==> 192 * 0x100_0000 + 168 * 0x1_0000 <= n < 192 * 0x100_0000 + 169 * 0x1_0000)
            && (b[4].Has(n) <==> 100 * 0x100_0000 + 64 * 0x1_0000 <= n < 100 * 0x100_0000 + 128 * 0x1_0000)
            && (b[5].Has(n) <==> 169 * 0x100_0000 + 254 * 0x1_0000 <= n < 169 * 0x100_0000 + 255 * 0x1_0000)
  {
    BlockSizes();
  }

  lemma BlockSizes()
    ensures Pow2(16) == 0x1_0000 && Pow2(20) == 0x10_0000 && Pow2(22) == 0x40_0000 && Pow2(24) == 0x100_0000
  {
    Pow2Values();
    Pow2Add(8, 8);
    Pow2Add(4, 16);
    Pow2Add(6, 16);
  }

  /** For IPv6: ::1, fc00::/7 and fe80::/10. */
  lemma PrivateRangesV6(a: u128)
    ensures var word := 0x1_0000_0000_0000_0000_0000_0000_0000;
            IsLoopbackOrPrivate(V6(a))
            <==> a == 1 || 0xfc00 * word <= a as nat < 0xfe00 * word || 0xfe80 * word <= a as nat < 0xfec0 * word
  {
  }

  // ----- what a request calls for: an action, or a strike and the ban its threshold brings

  datatype Plan = Do(action: Action) | Count(strike: Strikes.Strike, kind: StrikeKind)

  datatype StrikeKind =
    | SharedKind(category: Probes.Category)
    | IsolatedKind(category: Probes.Category)
    | ToolKind(bot: BotCategory)
    | SshKind
  {
    function Reason(count: nat): Reason {
      match this
      case SharedKind(c) => SharedThreshold(c, count)
      case IsolatedKind(c) => IsolatedThreshold(c, count)
      case ToolKind(b) => ToolErrorBurst(b)
      case SshKind => SshAuthFailures(count)
    }
  }

  function Verdict(kind: StrikeKind, r: Strikes.StrikeResult): Action {
    match r
    case ThresholdReached(count) => Ban(kind.Reason(count), false)
    case UnderThreshold(_, _) => Allow
  }

  function ActionOf(m: Strikes.Flat, ip: IpAddr, plan: Plan): Action {
    match plan
    case Do(action) => action
    case Count(s, kind) => Verdict(kind, Strikes.ResultOf(m, ip, s))
  }

  function StrikesAfter(m: Strikes.Flat, ip: IpAddr, plan: Plan): Strikes.Flat {
    match plan
    case Do(_) => m
    case Count(s, _) => Strikes.Apply(m, Strikes.Hit(ip, s))
  }

  function EvaluateAsn(p: Policy, meta: AsnInfo): Option<Action> {
    if meta.asn in p.blockedAsns then Some(Ban(BlockedAsn(meta.asn), false))
    else if meta.asn in p.restrictedAsns && meta.country !in p.allowedRegions then
      Some(Ban(RestrictedRegion(meta.asn, meta.country), false))
    else None
  }

  function DecisionPlan(d: Probes.ThreatDecision, now: nat): Plan {
    match d
    case Pass => Do(Allow)
    case InstantBan(c) => Do(Ban(Instant(c), false))
    case SharedStrike(c, threshold, window) =>
      Count(Strikes.Strike(Strikes.Critical, 0, threshold, window, now), SharedKind(c))
    case IsolatedStrike(c, threshold, window) =>
      Count(Strikes.Strike(Strikes.Isolated, c.AsU8(), threshold, window, now), IsolatedKind(c))
  }

  function Inspect(p: Policy, r: Request, path: string): Probes.ThreatDecision {
    Probes.InspectThreat(p.classifiers.verb(r.verb), p.classifiers.pathFacts(path), r.status)
  }

  function ProbePlan(p: Policy, r: Request, now: nat): Plan {
    if p.classifiers.allowedEndpoint(r.uri) then Do(Allow)
    else
      match Normalize.NormalizeRequestUri(r.uri)
      case ImmediateMalicious => Do(Ban(ImmediateMalicious, false))
      case Clean(path) => DecisionPlan(Inspect(p, r, path), now)
  }

  function ToolPlan(p: Policy, r: Request, bot: BotCategory, now: nat): Plan {
    match Normalize.NormalizeRequestUri(r.uri)
    case ImmediateMalicious => Do(Ban(ImmediateMalicious, false))
    case Clean(path) =>
      if !p.classifiers.allowedEndpoint(r.uri) && Inspect(p, r, path) != Probes.Pass then Do(Ban(ToolProbe(bot), false))
      else ToolStatusPlan(r.status, bot, now)
  }

  function ToolStatusPlan(status: nat, bot: BotCategory, now: nat): Plan {
    if 400 <= status < 600 then Count(Strikes.Strike(Strikes.Tool, 0, 10, 10, now), ToolKind(bot)) else Do(Allow)
  }

  /** The part after the address and ASN checks. */
  function ContentPlan(p: Policy, r: Request, now: nat): Plan {
    var exploit, bot := p.classifiers.headerExploit(r.userAgent), p.classifiers.botCategory(r.userAgent);
    if exploit.Some? then Do(Ban(HeaderExploit(exploit.value), true))
    else if bot in p.blockedCategories then
      if bot == GenericTools || bot == Empty then ToolPlan(p, r, bot, now) else Do(Ban(BlockedBot(bot), false))
    else if p.classifiers.scannerMethod(Text.AsciiUpper(r.verb)) then
      Do(Ban(ScannerMethod(Text.AsciiUpper(r.verb)), false))
    else
      var harmful := p.classifiers.harmfulReferer(r.referer);
      if harmful.Some? then Do(Ban(HarmfulReferer(harmful.value), true)) else ProbePlan(p, r, now)
  }

  function RequestPlan(p: Policy, r: Request, now: nat): Plan {
    if IsLoopbackOrPrivate(r.ip) || r.ip in p.whitelistedIps then Do(Allow)
    else if r.ip in p.bannedIps then Do(DropBanned)
    else
      var byAsn := if r.asnInfo.Some? then EvaluateAsn(p, r.asnInfo.value) else None;
      if byAsn.Some? then Do(byAsn.value) else ContentPlan(p, r, now)
  }

  function SshPlan(p: Policy, e: SshEvent, now: nat): Plan {
    if e.Ignore? then Do(Allow)
    else if IsLoopbackOrPrivate(e.ip) || e.ip in p.whitelistedIps then Do(Allow)
    else if e.ip in p.bannedIps then Do(DropBanned)
    else if e.ScannerProbe? then Do(Ban(SshProbe(e.reason), false))
    else Count(Strikes.Strike(Strikes.Isolated, Probes.Category.Common.AsU8(), 5, 300, now), SshKind)
  }

  // ----- what a request deserves, cause by cause

  /** Never judged. */
  predicate Immune(p: Policy, ip: IpAddr) {
    IsLoopbackOrPrivate(ip) || ip in p.whitelistedIps
  }

  predicate AsnBlocked(p: Policy, r: Request) {
    r.asnInfo.Some? && r.asnInfo.value.asn in p.blockedAsns
  }

  predicate RegionBlocked(p: Policy, r: Request) {
    && r.asnInfo.Some? && r.asnInfo.value.asn in p.restrictedAsns
    && r.asnInfo.value.country !in p.allowedRegions
  }

  function HeaderOf(p: Policy, r: Request): Option<string> {
    p.classifiers.headerExploit(r.userAgent)
  }

  function BotOf(p: Policy, r: Request): BotCategory {
    p.classifiers.botCategory(r.userAgent)
  }

  predicate BotBlocked(p: Policy, r: Request) {
    BotOf(p, r) in p.blockedCategories
  }

  /** A blocked client of the kinds that are watched instead of banned at once. */
  predicate ToolBlocked(p: Policy, r: Request) {
    BotBlocked(p, r) && (BotOf(p, r) == GenericTools || BotOf(p, r) == Empty)
  }

  predicate Scans(p: Policy, r: Request) {
    p.classifiers.scannerMethod(Text.AsciiUpper(r.verb))
  }

  function RefererOf(p: Policy, r: Request): Option<string> {
    p.classifiers.harmfulReferer(r.referer)
  }

  predicate Malicious(r: Request) {
    Normalize.ContainsMalicious(r.uri)
  }

  predicate Exempt(p: Policy, r: Request) {
    p.classifiers.allowedEndpoint(r.uri)
  }

  /** The classifier's judgement of the normalised path. */
  function DecisionOf(p: Policy, r: Request): Probes.ThreatDecision {
    Probes.InspectThreat(p.classifiers.verb(r.verb), p.classifiers.pathFacts(Normalize.Decoded(r.uri)), r.status)
  }

  predicate IsErrorStatus(status: nat) {
    400 <= status <= 599
  }

  function ToolStrike(now: nat): Strikes.Strike {
    Strikes.Strike(Strikes.Tool, 0, 10, 10, now)
  }

  /** The strike a probe is worth, if any. */
  function StrikeFor(d: Probes.ThreatDecision, now: nat): Option<Strikes.Strike> {
    match d
    case SharedStrike(_, threshold, window) => Some(Strikes.Strike(Strikes.Critical, 0, threshold, window, now))
    case IsolatedStrike(c, threshold, window) =>
      Some(Strikes.Strike(Strikes.Isolated, c.AsU8(), threshold, window, now))
    case _ => None
  }

  predicate Reaches(m: Strikes.Flat, ip: IpAddr, s: Strikes.Strike) {
    Strikes.ResultOf(m, ip, s).ThresholdReached?
  }

  /** An error answer to a blocked tool that does nothing worse. */
  predicate ToolErrs(p: Policy, r: Request) {
    !Malicious(r) && (Exempt(p, r) || DecisionOf(p, r) == Probes.Pass) && IsErrorStatus(r.status)
  }

  predicate ToolBanned(p: Policy, r: Request, m: Strikes.Flat, now: nat) {
    || Malicious(r)
    || (!Exempt(p, r) && DecisionOf(p, r) != Probes.Pass)
    || (IsErrorStatus(r.status) && Reaches(m, r.ip, ToolStrike(now)))
  }

  predicate ProbeBanned(p: Policy, r: Request, m: Strikes.Flat, now: nat) {
    && !Exempt(p, r)
    && (|| Malicious(r)
        || DecisionOf(p, r).InstantBan?
        || (StrikeFor(DecisionOf(p, r), now).Some? && Reaches(m, r.ip, StrikeFor(DecisionOf(p, r), now).value)))
  }

  /** Some cause to ban a request from an address that is neither immune nor banned. */
  predicate BanCause(p: Policy, r: Request, m: Strikes.Flat, now: nat) {
    || AsnBlocked(p, r)
    || RegionBlocked(p, r)
    || HeaderOf(p, r).Some?
    || (BotBlocked(p, r) && !ToolBlocked(p, r))
    || (ToolBlocked(p, r) && ToolBanned(p, r, m, now))
    || (!BotBlocked(p, r) && (Scans(p, r) || RefererOf(p, r).Some? || ProbeBanned(p, r, m, now)))
  }

  /** The request got past the checks of address, ASN and header. */
  predicate PastHeader(p: Policy, r: Request) {
    && !Immune(p, r.ip) && r.ip !in p.bannedIps
    && !AsnBlocked(p, r) && !RegionBlocked(p, r) && HeaderOf(p, r).None?
  }

  /** And past those of client, method and referer. */
  predicate PastReferer(p: Policy, r: Request) {
    PastHeader(p, r) && !BotBlocked(p, r) && !Scans(p, r) && RefererOf(p, r).None?
  }

  /** The cause a ban gives is one the request has, and the first in the order of the checks. */
  ghost predicate ReasonHolds(p: Policy, r: Request, m: Strikes.Flat, now: nat, reason: Reason) {
    match reason
    case BlockedAsn(asn) => AsnBlocked(p, r) && asn == r.asnInfo.value.asn
    case RestrictedRegion(asn, country) =>
      RegionBlocked(p, r) && !AsnBlocked(p, r) && AsnInfo(asn, country) == r.asnInfo.value
    case HeaderExploit(what) => !AsnBlocked(p, r) && !RegionBlocked(p, r) && HeaderOf(p, r) == Some(what)
    case BlockedBot(bot) => PastHeader(p, r) && BotBlocked(p, r) && !ToolBlocked(p, r) && bot == BotOf(p, r)
    case ScannerMethod(name) =>
      PastHeader(p, r) && !BotBlocked(p, r) && Scans(p, r) && name == Text.AsciiUpper(r.verb)
    case HarmfulReferer(what) =>
      PastHeader(p, r) && !BotBlocked(p, r) && !Scans(p, r) && RefererOf(p, r) == Some(what)
    case ImmediateMalicious => Malicious(r) && ((PastReferer(p, r) && !Exempt(p, r)) || ToolBlocked(p, r))
    case Instant(c) => PastReferer(p, r) && !Malicious(r) && DecisionOf(p, r) == Probes.InstantBan(c)
    case SharedThreshold(c, n) =>
      && PastReferer(p, r) && !Malicious(r) && DecisionOf(p, r).SharedStrike? && c == DecisionOf(p, r).category
      && Strikes.ResultOf(m, r.ip, StrikeFor(DecisionOf(p, r), now).value) == Strikes.ThresholdReached(n)
    case IsolatedThreshold(c, n) =>
      && PastReferer(p, r) && !Malicious(r) && DecisionOf(p, r).IsolatedStrike? && c == DecisionOf(p, r).category
      && Strikes.ResultOf(m, r.ip, StrikeFor(DecisionOf(p, r), now).value) == Strikes.ThresholdReached(n)
    case ToolProbe(bot) =>
      && PastHeader(p, r) && ToolBlocked(p, r) && bot == BotOf(p, r)
      && !Malicious(r) && !Exempt(p, r) && DecisionOf(p, r) != Probes.Pass
    case ToolErrorBurst(bot) => PastHeader(p, r) && ToolBlocked(p, r) && bot == BotOf(p, r) && ToolErrs(p, r)
    case _ => false
  }

  predicate IsLasting(reason: Reason) {
    reason.HeaderExploit? || reason.HarmfulReferer?
  }

  /** The right answer to a request, given the strikes held so far. */
  ghost predicate RightAction(p: Policy, r: Request, m: Strikes.Flat, now: nat, a: Action) {
    && (Immune(p, r.ip) ==> a == Allow)
    && (!Immune(p, r.ip) ==> (a == DropBanned <==> r.ip in p.bannedIps))
    && (!Immune(p, r.ip) && r.ip !in p.bannedIps ==> (a == Allow <==> !BanCause(p, r, m, now)))
    && (a.Ban? ==> ReasonHolds(p, r, m, now, a.reason) && (a.permanent <==> IsLasting(a.reason)))
  }

  /** The one strike a request may leave behind. */
  ghost predicate RightStrikes(p: Policy, r: Request, m: Strikes.Flat, now: nat, after: Strikes.Flat) {
    if PastHeader(p, r) && ToolBlocked(p, r) && ToolErrs(p, r) then
      after == Strikes.Apply(m, Strikes.Hit(r.ip, ToolStrike(now)))
    else if PastReferer(p, r) && !Exempt(p, r) && !Malicious(r) && StrikeFor(DecisionOf(p, r), now).Some? then
      after == Strikes.Apply(m, Strikes.Hit(r.ip, StrikeFor(DecisionOf(p, r), now).value))
    else after == m
  }

  lemma NormalizedPath(p: Policy, r: Request)
    ensures Malicious(r) <==> Normalize.NormalizeRequestUri(r.uri).ImmediateMalicious?
    ensures !Malicious(r) ==> Normalize.NormalizeRequestUri(r.uri) == Normalize.Clean(Normalize.Decoded(r.uri))
  {
    Normalize.NormalizeMeaning(r.uri);
  }

  lemma ToolDecision(p: Policy, r: Request, m: Strikes.Flat, now: nat)
    requires PastHeader(p, r) && ToolBlocked(p, r)
    ensures var plan := ToolPlan(p, r, BotOf(p, r), now);
            && RightAction(p, r, m, now, ActionOf(m, r.ip, plan))
            && RightStrikes(p, r, m, now, StrikesAfter(m, r.ip, plan))
  {
    NormalizedPath(p, r);
  }

  lemma ProbeDecision(p: Policy, r: Request, m: Strikes.Flat, now: nat)
    requires PastReferer(p, r)
    ensures var plan := ProbePlan(p, r, now);
            && RightAction(p, r, m, now, ActionOf(m, r.ip, plan))
            && RightStrikes(p, r, m, now, StrikesAfter(m, r.ip, plan))
  {
    NormalizedPath(p, r);
  }

  lemma RequestDecision(p: Policy, r: Request, m: Strikes.Flat, now: nat)
    ensures RightAction(p, r, m, now, ActionOf(m, r.ip, RequestPlan(p, r, now)))
    ensures RightStrikes(p, r, m, now, StrikesAfter(m, r.ip, RequestPlan(p, r, now)))
  {
    if PastHeader(p, r) && ToolBlocked(p, r) {
      ToolDecision(p, r, m, now);
    } else if PastReferer(p, r) {
      ProbeDecision(p, r, m, now);
    }
  }

  predicate SshJudged(p: Policy, e: SshEvent) {
    !e.Ignore? && !Immune(p, e.ip) && e.ip !in p.bannedIps
  }

  function SshStrike(now: nat): Strikes.Strike {
    Strikes.Strike(Strikes.Isolated, 1, 5, 300, now)
  }

  /** The right answer to an SSH event. */
  ghost predicate RightSshAction(p: Policy, e: SshEvent, m: Strikes.Flat, now: nat, a: Action, after: Strikes.Flat) {
    && (e.Ignore? || Immune(p, e.ip) ==> a == Allow)
    && (a == DropBanned <==> !e.Ignore? && !Immune(p, e.ip) && e.ip in p.bannedIps)
    && (SshJudged(p, e) && e.ScannerProbe? ==> a == Ban(SshProbe(e.reason), false))
    && (SshJudged(p, e) && e.AuthFailure? ==>
          && (a == Allow <==> !Reaches(m, e.ip, SshStrike(now)))
          && (a != Allow ==> a == Ban(SshAuthFailures(Strikes.ResultOf(m, e.ip, SshStrike(now)).count), false)))
    && after == if SshJudged(p, e) && e.AuthFailure? then Strikes.Apply(m, Strikes.Hit(e.ip, SshStrike(now))) else m
  }

  lemma SshDecision(p: Policy, e: SshEvent, m: Strikes.Flat, now: nat)
    ensures RightSshAction(p, e, m, now, ActionOf(m, SshAddress(e), SshPlan(p, e, now)),
                           StrikesAfter(m, SshAddress(e), SshPlan(p, e, now)))
  {
  }

  // ----- the pipeline object

  class ThreatPipeline {
    const policy: Policy
    const tracker: Strikes.IpStrikeTracker

    constructor (policy: Policy, tracker: Strikes.IpStrikeTracker)
      ensures this.policy == policy && this.tracker == tracker
    {
      this.policy := policy;
      this.tracker := tracker;
    }

    method EvaluateThreatDecision(ip: IpAddr, d: Probes.ThreatDecision, now: nat) returns (action: Action)
      requires tracker.Valid()
      modifies tracker`Contents, tracker.shards
      ensures tracker.Valid()
      ensures action == ActionOf(old(tracker.Contents), ip, DecisionPlan(d, now))
      ensures tracker.Contents == StrikesAfter(old(tracker.Contents), ip, DecisionPlan(d, now))
    {
      match d {
        case Pass => action := Allow;
        case InstantBan(c) => action := Ban(Instant(c), false);
        case SharedStrike(c, threshold, window) =>
          var r := tracker.RecordSharedStrike(ip, threshold, window, now);
          action := if r.ThresholdReached? then Ban(SharedThreshold(c, r.count), false) else Allow;
        case IsolatedStrike(c, threshold, window) =>
          var r := tracker.RecordIsolatedStrike(ip, c.AsU8(), threshold, window, now);
          action := if r.ThresholdReached? then Ban(IsolatedThreshold(c, r.count), false) else Allow;
      }
    }

    method EvaluateProbe(r: Request, now: nat) returns (action: Action)
      requires tracker.Valid()
      modifies tracker`Contents, tracker.shards
      ensures tracker.Valid()
      ensures action == ActionOf(old(tracker.Contents), r.ip, ProbePlan(policy, r, now))
      ensures tracker.Contents == StrikesAfter(old(tracker.Contents), r.ip, ProbePlan(policy, r, now))
    {
      if policy.classifiers.allowedEndpoint(r.uri) {
        return Allow;
      }
      match Normalize.NormalizeRequestUri(r.uri) {
        case ImmediateMalicious => action := Ban(ImmediateMalicious, false);
        case Clean(path) => action := EvaluateThreatDecision(r.ip, Inspect(policy, r, path), now);
      }
    }

    method EvaluateToolRequest(r: Request, bot: BotCategory, now: nat) returns (action: Action)
      requires tracker.Valid()
      modifies tracker`Contents, tracker.shards
      ensures tracker.Valid()
      ensures action == ActionOf(old(tracker.Contents), r.ip, ToolPlan(policy, r, bot, now))
      ensures tracker.Contents == StrikesAfter(old(tracker.Contents), r.ip, ToolPlan(policy, r, bot, now))
    {
      match Normalize.NormalizeRequestUri(r.uri) {
        case ImmediateMalicious => action := Ban(ImmediateMalicious, false);
        case Clean(path) =>
          if !policy.classifiers.allowedEndpoint(r.uri) {
            var decision := Inspect(policy, r, path);
            if decision != Probes.Pass {
              return Ban(ToolProbe(bot), false);
            }
          }
          action := EvaluateToolStatus(r.ip, bot, r.status, now);
      }
    }

    method EvaluateToolStatus(ip: IpAddr, bot: BotCategory, status: nat, now: nat) returns (action: Action)
      requires tracker.Valid()
      modifies tracker`Contents, tracker.shards
      ensures tracker.Valid()
      ensures action == ActionOf(old(tracker.Contents), ip, ToolStatusPlan(status, bot, now))
      ensures tracker.Contents == StrikesAfter(old(tracker.Contents), ip, ToolStatusPlan(status, bot, now))
    {
      if 400 <= status < 600 {
        var result := tracker.RecordToolStrike(ip, 10, 10, now);
        action := if result.ThresholdReached? then Ban(ToolErrorBurst(bot), false) else Allow;
      } else {
        action := Allow;
      }
    }

    method EvaluateRequest(r: Request, now: nat) returns (action: Action)
      requires tracker.Valid()
      modifies tracker`Contents, tracker.shards
      ensures tracker.Valid()
      ensures action == ActionOf(old(tracker.Contents), r.ip, RequestPlan(policy, r, now))
      ensures tracker.Contents == StrikesAfter(old(tracker.Contents), r.ip, RequestPlan(policy, r, now))
      ensures RightAction(policy, r, old(tracker.Contents), now, action)
      ensures RightStrikes(policy, r, old(tracker.Contents), now, tracker.Contents)
    {
      RequestDecision(policy, r, tracker.Contents, now);
      if IsLoopbackOrPrivate(r.ip) || r.ip in policy.whitelistedIps {
        return Allow;
      }
      if r.ip in policy.bannedIps {
        return DropBanned;
      }
      if r.asnInfo.Some? {
        var byAsn := EvaluateAsn(policy, r.asnInfo.value);
        if byAsn.Some? {
          return byAsn.value;
        }
      }
      var exploit := policy.classifiers.headerExploit(r.userAgent);
      if exploit.Some? {
        return Ban(HeaderExploit(exploit.value), true);
      }
      var bot := policy.classifiers.botCategory(r.userAgent);
      if bot in policy.blockedCategories {
        if bot == GenericTools || bot == Empty {
          action := EvaluateToolRequest(r, bot, now);
          return;
        }
        return Ban(BlockedBot(bot), false);
      }
      var upperMethod := Text.AsciiUpper(r.verb);
      if policy.classifiers.scannerMethod(upperMethod) {
        return Ban(ScannerMethod(upperMethod), false);
      }
      var harmful := policy.classifiers.harmfulReferer(r.referer);
      if harmful.Some? {
        return Ban(HarmfulReferer(harmful.value), true);
      }
      action := EvaluateProbe(r, now);
    }

    method EvaluateSshEvent(e: SshEvent, now: nat) returns (action: Action)
      requires tracker.Valid()
      modifies tracker`Contents, tracker.shards
      ensures tracker.Valid()
      ensures action == ActionOf(old(tracker.Contents), SshAddress(e), SshPlan(policy, e, now))
      ensures tracker.Contents == StrikesAfter(old(tracker.Contents), SshAddress(e), SshPlan(policy, e, now))
      ensures RightSshAction(policy, e, old(tracker.Contents), now, action, tracker.Contents)
    {
      SshDecision(policy, e, tracker.Contents, now);
      match e {
        case Ignore => action := Allow;
        case ScannerProbe(ip, reason) =>
          if IsLoopbackOrPrivate(ip) || ip in policy.whitelistedIps {
            return Allow;
          }
          if ip in policy.bannedIps {
            return DropBanned;
          }
          action := Ban(SshProbe(reason), false);
        case AuthFailure(ip) =>
          if IsLoopbackOrPrivate(ip) || ip in policy.whitelistedIps {
            return Allow;
          }
          if ip in policy.bannedIps {
            return DropBanned;
          }
          var r := tracker.RecordIsolatedStrike(ip, Probes.Category.Common.AsU8(), 5, 300, now);
          action := if r.ThresholdReached? then Ban(SshAuthFailures(r.count), false) else Allow;
      }
    }
  }

  function SshAddress(e: SshEvent): IpAddr {
    if e.Ignore? then V4(0) else e.ip
  }

  // ----- the snapshot of the store

  function Members<T(==)>(entries: seq<T>): set<T> {
    set x | x in entries
  }

  ghost function Listed<T(!new)>(entries: seq<Option<T>>): set<T> {
    set i | 0 <= i < |entries| && entries[i].Some? :: entries[i].value
  }

  ghost function BanAddresses(bans: seq<Store.Ban>): seq<Option<IpAddr>> {
    seq(|bans|, i requires 0 <= i < |bans| => bans[i].Address())
  }

  ghost function CategoriesOf(c: Classifiers, names: seq<string>): seq<Option<BotCategory>> {
    seq(|names|, i requires 0 <= i < |names| => c.categoryName(names[i]))
  }

  ghost function PolicyOf(t: Store.Tables, c: Classifiers): Policy {
    Policy(Listed(t.whitelist), Listed(BanAddresses(t.bans)), Members(t.blockedAsns), Members(t.restrictedAsns),
           Members(t.allowedRegions), Listed(CategoriesOf(c, t.blockedCategories)), c)
  }

  method BuildPipelineFromStore(t: Store.Tables, c: Classifiers) returns (p: Policy)
    ensures p == PolicyOf(t, c)
  {
    var whitelisted: set<IpAddr> := {};
    for i := 0 to |t.whitelist|
      invariant whitelisted == set k | 0 <= k < i && t.whitelist[k].Some? :: t.whitelist[k].value
    {
      if t.whitelist[i].Some? {
        whitelisted := whitelisted + {t.whitelist[i].value};
      }
    }
    var banned: set<IpAddr> := {};
    ghost var addresses := BanAddresses(t.bans);
    for i := 0 to |t.bans|
      invariant banned == set k | 0 <= k < i && addresses[k].Some? :: addresses[k].value
    {
      var b := t.bans[i];
      assert addresses[i] == b.Address();
      if b.ip.Some? {
        banned := banned + {b.ip.value};
      } else if b.targetIp.Some? {
        banned := banned + {b.targetIp.value};
      }
    }
    var categories := set n | n in t.blockedCategories && c.categoryName(n).Some? :: c.categoryName(n).value;
    assert categories == Listed(CategoriesOf(c, t.blockedCategories)) by {
      forall x | x in categories ensures x in Listed(CategoriesOf(c, t.blockedCategories)) {
        var n :| n in t.blockedCategories && c.categoryName(n) == Some(x);
        var i :| 0 <= i < |t.blockedCategories| && t.blockedCategories[i] == n;
        assert CategoriesOf(c, t.blockedCategories)[i] == Some(x);
      }
    }
    p := Policy(whitelisted, banned, Members(t.blockedAsns), Members(t.restrictedAsns),
                Members(t.allowedRegions), categories, c);
  }

  lemma ListedMeaning<T(!new)>(entries: seq<Option<T>>, x: T)
    ensures x in Listed(entries) <==> Some(x) in entries
  {
    if Some(x) in entries {
      var i :| 0 <= i < |entries| && entries[i] == Some(x);
      assert entries[i].value in Listed(entries);
    }
  }

  /** Each set of the policy holds exactly what its table lists. */
  lemma PolicyMeaning(t: Store.Tables, c: Classifiers)
    ensures var p := PolicyOf(t, c);
            && p.classifiers == c
            && (forall ip :: ip in p.whitelistedIps <==> Some(ip) in t.whitelist)
            && (forall ip :: ip in p.bannedIps <==> exists b :: b in t.bans && IsFor(b, ip))
            && (forall a :: a in p.blockedAsns <==> a in t.blockedAsns)
            && (forall a :: a in p.restrictedAsns <==> a in t.restrictedAsns)
            && (forall g :: g in p.allowedRegions <==> g in t.allowedRegions)
            && (forall k :: k in p.blockedCategories
                            <==> exists n :: n in t.blockedCategories && c.categoryName(n) == Some(k))
  {
    var p := PolicyOf(t, c);
    forall ip ensures ip in p.whitelistedIps <==> Some(ip) in t.whitelist {
      ListedMeaning(t.whitelist, ip);
    }
    forall ip ensures ip in p.bannedIps <==> exists b :: b in t.bans && IsFor(b, ip) {
      BannedMeaning(t.bans, ip);
    }
    forall k
      ensures k in p.blockedCategories <==> exists n :: n in t.blockedCategories && c.categoryName(n) == Some(k)
    {
      CategoriesMeaning(c, t.blockedCategories, k);
    }
  }

  /** A ban is for its address, or for the one its target names where none is stored. */
  predicate IsFor(b: Store.Ban, ip: IpAddr) {
    b.ip == Some(ip) || (b.ip == None && b.targetIp == Some(ip))
  }

  lemma BannedMeaning(bans: seq<Store.Ban>, ip: IpAddr)
    ensures ip in Listed(BanAddresses(bans)) <==> exists b :: b in bans && IsFor(b, ip)
  {
    var addresses := BanAddresses(bans);
    ListedMeaning(addresses, ip);
    if Some(ip) in addresses {
      var i :| 0 <= i < |addresses| && addresses[i] == Some(ip);
      assert bans[i] in bans;
    }
    if b :| b in bans && IsFor(b, ip) {
      var i :| 0 <= i < |bans| && bans[i] == b;
      assert addresses[i] == Some(ip);
    }
  }

  lemma CategoriesMeaning(c: Classifiers, names: seq<string>, k: BotCategory)
    ensures k in Listed(CategoriesOf(c, names)) <==> exists n :: n in names && c.categoryName(n) == Some(k)
  {
    var found := CategoriesOf(c, names);
    ListedMeaning(found, k);
    if Some(k) in found {
      var i :| 0 <= i < |found| && found[i] == Some(k);
      assert names[i] in names;
    }
    if n :| n in names && c.categoryName(n) == Some(k) {
      var i :| 0 <= i < |names| && names[i] == n;
      assert found[i] == Some(k);
    }
  }

  // ----- the compiled rule against the pipeline

  /** Whether the firewall's evaluation of a clause matches a request. */
  predicate ClauseMatches(c: Expression.Clause, ip: u32, meta: AsnInfo) {
    match c
    case Regional(asns, regions) => meta.asn in asns && meta.country !in regions
    case BlockedAsns(asns) => meta.asn in asns
    case IpSet(ips) => ip in ips
  }

  ghost predicate RuleMatches(cs: seq<Expression.Clause>, ip: u32, meta: AsnInfo) {
    exists c :: c in cs && ClauseMatches(c, ip, meta)
  }

  ghost function RuleOf(t: Store.Tables, maxChars: nat): seq<Expression.Clause> {
    Expression.Selected(BudgetOf(t, maxChars), RuleIps(t))
  }

  function BudgetOf(t: Store.Tables, maxChars: nat): Expression.Budget {
    Expression.Budget(maxChars, t.blockedAsns, t.restrictedAsns, t.allowedRegions)
  }

  function RuleIps(t: Store.Tables): seq<u32> {
    Expression.Reversed(Store.V4Addresses(t.bans))
  }

  lemma {:induction false} ReversedMembers(s: seq<u32>, x: u32)
    ensures x in Expression.Reversed(s) <==> x in s
  {
    if s != [] {
      ReversedMembers(s[1..], x);
      assert s == [s[0]] + s[1..];
    }
  }

  lemma RuleIpsAreBanned(t: Store.Tables, c: Classifiers, ip: u32)
    ensures ip in RuleIps(t) <==> V4(ip) in PolicyOf(t, c).bannedIps
  {
    ReversedMembers(Store.V4Addresses(t.bans), ip);
    Store.V4AddressesAreBanned(t.bans, ip);
    var addresses := BanAddresses(t.bans);
    if V4(ip) in PolicyOf(t, c).bannedIps {
      var i :| 0 <= i < |addresses| && addresses[i] == Some(V4(ip));
      assert t.bans[i] in t.bans && t.bans[i].Address() == Some(V4(ip));
    }
    if ip in RuleIps(t) {
      var b :| b in t.bans && b.Address() == Some(V4(ip));
      var i :| 0 <= i < |t.bans| && t.bans[i] == b;
      assert addresses[i] == Some(V4(ip));
    }
  }

  /** What a clause of the rule can be: each only lists what some table lists. */
  lemma RuleClauses(t: Store.Tables, maxChars: nat, cl: Expression.Clause)
    requires cl in RuleOf(t, maxChars)
    ensures match cl
            case Regional(asns, regions) => asns == t.restrictedAsns && regions == t.allowedRegions && regions != []
            case BlockedAsns(asns) => forall a :: a in asns ==> a in t.blockedAsns
            case IpSet(ips) => forall ip :: ip in ips ==> ip in RuleIps(t)
  {
    var b := BudgetOf(t, maxChars);
    var included := Expression.IncludedIps(b, RuleIps(t));
    assert cl in Expression.RegionalPart(b) || cl.BlockedAsns? || cl == Expression.IpSet(included);
  }

  /** Bans are cut from the front of the list: an address that only earlier bans name is in the rule only with
      all addresses of the later ones. */
  lemma LaterBansFirst(t: Store.Tables, maxChars: nat, cl: Expression.Clause, earlier: seq<Store.Ban>,
                       later: seq<Store.Ban>, ip: u32, a: u32)
    requires t.bans == earlier + later && cl in RuleOf(t, maxChars) && cl.IpSet?
    requires ip in cl.ips && ip !in Store.V4Addresses(later)
    requires a in Store.V4Addresses(later)
    ensures a in cl.ips
  {
    Store.V4AddressesInOrder(earlier, later);
    assert cl.ips == Expression.IncludedIps(BudgetOf(t, maxChars), RuleIps(t));
    Expression.ReversedPrefix(Store.V4Addresses(earlier), Store.V4Addresses(later), cl.ips, ip, a);
  }

  /** The rule with nothing cut: every table whole, the regional clause when both its tables have entries. */
  function FullRule(t: Store.Tables): seq<Expression.Clause> {
    FullPolicy(t) + if RuleIps(t) == [] then [] else [Expression.IpSet(RuleIps(t))]
  }

  function FullRegional(t: Store.Tables): seq<Expression.Clause> {
    if t.restrictedAsns == [] || t.allowedRegions == [] then []
    else [Expression.Regional(t.restrictedAsns, t.allowedRegions)]
  }

  function FullPolicy(t: Store.Tables): seq<Expression.Clause> {
    FullRegional(t) + if t.blockedAsns == [] then [] else [Expression.BlockedAsns(t.blockedAsns)]
  }

  /** The budget test: the whole rule, printed, fits. */
  predicate FullRuleFits(t: Store.Tables, maxChars: nat) {
    |Expression.PrintAll(FullRule(t))| <= maxChars
  }

  lemma FullParts(t: Store.Tables, maxChars: nat)
    requires FullRuleFits(t, maxChars)
    ensures var b := BudgetOf(t, maxChars); Expression.Fits(b, FullPolicy(t)) && Expression.Fits(b, FullRegional(t))
  {
    if RuleIps(t) != [] {
      Expression.PrintAllSnoc(FullPolicy(t), Expression.IpSet(RuleIps(t)));
    } else {
      assert FullRule(t) == FullPolicy(t);
    }
    if t.blockedAsns != [] {
      Expression.PrintAllSnoc(FullRegional(t), Expression.BlockedAsns(t.blockedAsns));
    } else {
      assert FullPolicy(t) == FullRegional(t);
    }
  }

  lemma PolicyUncut(t: Store.Tables, maxChars: nat)
    requires FullRuleFits(t, maxChars)
    ensures Expression.PolicyPart(BudgetOf(t, maxChars)) == FullPolicy(t)
  {
    var b, n := BudgetOf(t, maxChars), |t.blockedAsns|;
    FullParts(t, maxChars);
    assert Expression.RegionalPart(b) == FullRegional(t);
    assert Expression.Last(t.blockedAsns, n) == t.blockedAsns;
    if n > 0 {
      Expression.AsnCountThreshold(b, FullRegional(t), n, n);
    }
  }

  /** Nothing is cut exactly when the whole rule fits the budget. */
  lemma UncutIffFits(t: Store.Tables, maxChars: nat)
    ensures RuleOf(t, maxChars) == FullRule(t) <==> FullRuleFits(t, maxChars)
  {
    var b, ips := BudgetOf(t, maxChars), RuleIps(t);
    Expression.SelectedFits(b, ips);
    if FullRuleFits(t, maxChars) {
      PolicyUncut(t, maxChars);
      assert ips[..|ips|] == ips;
      if ips != [] {
        Expression.IpCountThreshold(b, FullPolicy(t), ips, |ips|, |ips|);
      }
    }
  }

  /** What the pipeline stops by address or ASN and the rule language can express: with no region allowed
      at all, the pipeline bans every restricted ASN but the rule leaves the regional clause out. */
  ghost predicate StoppedByTables(t: Store.Tables, ip: u32, meta: AsnInfo) {
    || ip in RuleIps(t)
    || meta.asn in t.blockedAsns
    || (meta.asn in t.restrictedAsns && meta.country !in t.allowedRegions && t.allowedRegions != [])
  }

  lemma RuleMatchesOnlyStopped(t: Store.Tables, maxChars: nat, ip: u32, meta: AsnInfo)
    requires RuleMatches(RuleOf(t, maxChars), ip, meta)
    ensures StoppedByTables(t, ip, meta)
  {
    var cl :| cl in RuleOf(t, maxChars) && ClauseMatches(cl, ip, meta);
    RuleClauses(t, maxChars, cl);
  }

  lemma UncutRuleMatchesAllStopped(t: Store.Tables, maxChars: nat, ip: u32, meta: AsnInfo)
    requires FullRuleFits(t, maxChars) && StoppedByTables(t, ip, meta)
    ensures RuleMatches(RuleOf(t, maxChars), ip, meta)
  {
    UncutIffFits(t, maxChars);
    var cl := if ip in RuleIps(t) then Expression.IpSet(RuleIps(t))
              else if meta.asn in t.blockedAsns then Expression.BlockedAsns(t.blockedAsns)
              else Expression.Regional(t.restrictedAsns, t.allowedRegions);
    assert cl in FullRule(t) && ClauseMatches(cl, ip, meta);
  }

  /** Whether the pipeline stops a request by address or ASN, private and whitelisted addresses aside. */
  predicate StoppedByPolicy(p: Policy, ip: u32, meta: AsnInfo) {
    V4(ip) in p.bannedIps || EvaluateAsn(p, meta).Some?
  }

  /** Conversely, a rule that fits whole matches exactly what the pipeline stops by address or ASN, but for
      restricted ASNs when no region is allowed. */
  lemma UncutRuleIsExact(t: Store.Tables, c: Classifiers, maxChars: nat, ip: u32, meta: AsnInfo)
    requires FullRuleFits(t, maxChars)
    ensures var p := PolicyOf(t, c);
            && (RuleMatches(RuleOf(t, maxChars), ip, meta) ==> StoppedByPolicy(p, ip, meta))
            && (StoppedByPolicy(p, ip, meta) && !RuleMatches(RuleOf(t, maxChars), ip, meta)
                <==> t.allowedRegions == [] && meta.asn in t.restrictedAsns && meta.asn !in t.blockedAsns
                     && V4(ip) !in p.bannedIps)
  {
    RuleIpsAreBanned(t, c, ip);
    if RuleMatches(RuleOf(t, maxChars), ip, meta) {
      RuleMatchesOnlyStopped(t, maxChars, ip, meta);
    }
    if StoppedByTables(t, ip, meta) {
      UncutRuleMatchesAllStopped(t, maxChars, ip, meta);
    }
  }

  /** Whether some region is allowed, or every restricted ASN is blocked outright (or no address is left to
      tell the difference). */
  ghost predicate NoRegionGap(t: Store.Tables) {
    || t.allowedRegions != []
    || (forall a :: a in t.restrictedAsns ==> a in t.blockedAsns)
    || (forall ip: u32 :: ip in RuleIps(t))
  }

  ghost predicate RuleAgrees(t: Store.Tables, c: Classifiers, maxChars: nat, ip: u32, meta: AsnInfo) {
    RuleMatches(RuleOf(t, maxChars), ip, meta) <==> StoppedByPolicy(PolicyOf(t, c), ip, meta)
  }

  /** A rule that fits whole agrees with the pipeline on every address and ASN exactly when the tables have no
      such gap. */
  lemma RuleAgreesIff(t: Store.Tables, c: Classifiers, maxChars: nat)
    requires FullRuleFits(t, maxChars)
    ensures (forall ip, meta :: RuleAgrees(t, c, maxChars, ip, meta)) <==> NoRegionGap(t)
  {
    forall ip, meta
      ensures RuleAgrees(t, c, maxChars, ip, meta)
         <==> !(t.allowedRegions == [] && meta.asn in t.restrictedAsns && meta.asn !in t.blockedAsns
                && ip !in RuleIps(t))
    {
      UncutRuleIsExact(t, c, maxChars, ip, meta);
      RuleIpsAreBanned(t, c, ip);
    }
    if !NoRegionGap(t) {
      var a :| a in t.restrictedAsns && a !in t.blockedAsns;
      var ip: u32 :| ip !in RuleIps(t);
      assert !RuleAgrees(t, c, maxChars, ip, AsnInfo(a, ""));
    }
  }

  /** Such a gap: one restricted ASN and nothing else. The rule is empty, and the pipeline bans the ASN from
      everywhere. */
  lemma RestrictedWithoutRegions(c: Classifiers, maxChars: nat, ip: u32, country: string)
    ensures var t := Store.Tables([], [], [], [5], [], []);
            && RuleOf(t, maxChars) == []
            && !RuleMatches(RuleOf(t, maxChars), ip, AsnInfo(5, country))
            && EvaluateAsn(PolicyOf(t, c), AsnInfo(5, country)) == Some(Ban(RestrictedRegion(5, country), false))
  {
    var t := Store.Tables([], [], [], [5], [], []);
    assert RuleIps(t) == [];
    UncutIffFits(t, maxChars);
  }

  /** Agreement of the two enforcement points: with pipeline and rule built from one snapshot, a request the
      rule matches, from an address neither private nor whitelisted, is dropped or banned by the pipeline,
      whatever else it carries and whatever the tracker holds. */
  lemma MatchedRequestsAreStopped(t: Store.Tables, c: Classifiers, maxChars: nat, ip: u32, meta: AsnInfo,
                                  r: Request, m: Strikes.Flat, now: nat)
    requires RuleMatches(RuleOf(t, maxChars), ip, meta)
    requires r.ip == V4(ip) && r.asnInfo == Some(meta)
    requires !IsLoopbackOrPrivate(r.ip) && r.ip !in PolicyOf(t, c).whitelistedIps
    ensures var a := ActionOf(m, r.ip, RequestPlan(PolicyOf(t, c), r, now)); a.DropBanned? || a.Ban?
  {
    RuleMatchesOnlyStopped(t, maxChars, ip, meta);
    RuleIpsAreBanned(t, c, ip);
  }

  /** Whether the firewall matches a request, having read the text of the rule. */
  ghost predicate TextMatches(text: string, ip: u32, meta: AsnInfo) {
    RuleReader.ReadRule(text).Some? && RuleMatches(RuleReader.ReadRule(text).value, ip, meta)
  }

  ghost predicate PlainRegions(t: Store.Tables) {
    forall i :: 0 <= i < |t.allowedRegions| ==> '"' !in t.allowedRegions[i]
  }

  /** The text of the rule matches what its clauses do. */
  lemma TextMatchesIff(t: Store.Tables, maxChars: nat, ip: u32, meta: AsnInfo)
    requires PlainRegions(t)
    ensures TextMatches(Expression.PrintAll(RuleOf(t, maxChars)), ip, meta)
       <==> RuleMatches(RuleOf(t, maxChars), ip, meta)
  {
    var cs := RuleOf(t, maxChars);
    forall i | 0 <= i < |cs| ensures RuleReader.Readable(cs[i]) {
      RuleClauses(t, maxChars, cs[i]);
    }
    RuleReader.RuleReadsIff(cs);
  }

  /** The same agreement for the text that is pushed: a request it matches is stopped by the pipeline. */
  lemma MatchedByTextAreStopped(t: Store.Tables, c: Classifiers, maxChars: nat, ip: u32, meta: AsnInfo,
                                r: Request, m: Strikes.Flat, now: nat)
    requires PlainRegions(t) && TextMatches(Expression.PrintAll(RuleOf(t, maxChars)), ip, meta)
    requires r.ip == V4(ip) && r.asnInfo == Some(meta)
    requires !IsLoopbackOrPrivate(r.ip) && r.ip !in PolicyOf(t, c).whitelistedIps
    ensures var a := ActionOf(m, r.ip, RequestPlan(PolicyOf(t, c), r, now)); a.DropBanned? || a.Ban?
  {
    TextMatchesIff(t, maxChars, ip, meta);
    MatchedRequestsAreStopped(t, c, maxChars, ip, meta, r, m, now);
  }

  // ----- the daemon: requests and SSH events with a sweep every minute

  /** A sweep is any number of events, each for the part of the addresses it covers: one shard in the source. */
  datatype Event =
    | Http(request: Request, now: nat)
    | Ssh(event: SshEvent, now: nat)
    | SweepAt(covers: IpAddr -> bool, now: nat)

  const MAX_IDLE: nat := 600
  const MAX_WINDOW: nat := 300

  ghost function AddressOf(e: Event): IpAddr {
    match e
    case Http(r, _) => r.ip
    case Ssh(s, _) => SshAddress(s)
    case SweepAt(_, _) => V4(0)
  }

  ghost function EventPlan(p: Policy, e: Event): Plan {
    match e
    case Http(r, now) => RequestPlan(p, r, now)
    case Ssh(s, now) => SshPlan(p, s, now)
    case SweepAt(_, _) => Do(Allow)
  }

  /** An event as the tracker sees it. */
  datatype Entry = Planned(ip: IpAddr, plan: Plan, now: nat) | Swept(covers: IpAddr -> bool, now: nat)

  ghost function EntryOf(p: Policy, e: Event): Entry {
    if e.SweepAt? then Swept(e.covers, e.now) else Planned(AddressOf(e), EventPlan(p, e), e.now)
  }

  ghost function EntriesOf(p: Policy, events: seq<Event>): seq<Entry> {
    seq(|events|, i requires 0 <= i < |events| => EntryOf(p, events[i]))
  }

  /** The tracker operations of a list of entries. */
  ghost function TrackerOps(entries: seq<Entry>): seq<Strikes.Op> {
    if entries == [] then []
    else
      var ops, e := TrackerOps(entries[..|entries| - 1]), entries[|entries| - 1];
      if e.Swept? then ops + [Strikes.Sweep(e.covers, e.now, MAX_IDLE)]
      else if e.plan.Count? then ops + [Strikes.Hit(e.ip, e.plan.strike)]
      else ops
  }

  /** The actions the entries lead to, sweeps aside. */
  ghost function Actions(entries: seq<Entry>): seq<Action> {
    if entries == [] then []
    else
      var init, e := entries[..|entries| - 1], entries[|entries| - 1];
      if e.Swept? then Actions(init) else Actions(init) + [ActionOf(Strikes.Run(TrackerOps(init)), e.ip, e.plan)]
  }

  ghost function WithoutSweeps(entries: seq<Entry>): seq<Entry> {
    if entries == [] then []
    else
      var init, e := WithoutSweeps(entries[..|entries| - 1]), entries[|entries| - 1];
      if e.Swept? then init else init + [e]
  }

  /** Requests and SSH events never precede earlier events in time. A sweep may: it takes its time once and
      works through the shards while others go on. */
  ghost predicate Chronological(events: seq<Event>) {
    && (forall i :: 0 <= i < |events| ==> events[i].now >= 1)
    && (forall i, j :: 0 <= i < j < |events| && !events[j].SweepAt? ==> events[i].now <= events[j].now)
  }

  /** In time order, every strike well formed, stamped with its entry's time and within the window bound. */
  ghost predicate WellTimed(entries: seq<Entry>) {
    && (forall i :: 0 <= i < |entries| ==> StrikeInBounds(entries[i]))
    && (forall i, j :: 0 <= i < j < |entries| && !entries[j].Swept? ==> entries[i].now <= entries[j].now)
  }

  ghost predicate StrikeInBounds(e: Entry) {
    e.Planned? && e.plan.Count? ==>
      e.plan.strike.Valid() && e.plan.strike.now == e.now && e.plan.strike.window <= MAX_WINDOW
  }

  lemma DecisionPlanWindow(d: Probes.ThreatDecision, now: nat)
    requires Probes.InBounds(d) && now >= 1
    ensures var plan := DecisionPlan(d, now);
            plan.Count? ==> plan.strike.Valid() && plan.strike.now == now && plan.strike.window <= 15
  {
  }

  /** Every strike the pipeline records is well formed, stamped with the event's time, and its window is
      within the daemon's bound: 15 seconds for probes, 10 for tools, 300 for SSH. */
  lemma EventWindow(p: Policy, e: Event)
    requires e.now >= 1
    ensures var plan := EventPlan(p, e);
            plan.Count? ==> plan.strike.Valid() && plan.strike.now == e.now && plan.strike.window <= MAX_WINDOW
  {
    match e {
      case Http(r, now) =>
        match Normalize.NormalizeRequestUri(r.uri) {
          case ImmediateMalicious =>
          case Clean(path) => DecisionPlanWindow(Inspect(p, r, path), now);
        }
      case Ssh(_, _) =>
      case SweepAt(_, _) =>
    }
  }

  lemma EntriesWellTimed(p: Policy, events: seq<Event>)
    requires Chronological(events)
    ensures WellTimed(EntriesOf(p, events))
  {
    forall i | 0 <= i < |events| ensures StrikeInBounds(EntriesOf(p, events)[i]) {
      EventWindow(p, events[i]);
    }
  }

  lemma {:induction false} OpsClock(entries: seq<Entry>, t: nat)
    requires WellTimed(entries) && forall i :: 0 <= i < |entries| ==> entries[i].now <= t
    ensures Strikes.Clock(TrackerOps(entries)) <= t
  {
    if entries != [] {
      var init, e := entries[..|entries| - 1], entries[|entries| - 1];
      OpsClock(init, t);
      assert StrikeInBounds(e);
      if e.Swept? || e.plan.Count? {
        var ops := TrackerOps(entries);
        assert ops[..|ops| - 1] == TrackerOps(init);
      }
    }
  }

  lemma {:induction false} OpsDisciplined(entries: seq<Entry>)
    requires WellTimed(entries)
    ensures Strikes.Disciplined(TrackerOps(entries), MAX_WINDOW)
  {
    if entries != [] {
      var init, e := entries[..|entries| - 1], entries[|entries| - 1];
      OpsDisciplined(init);
      assert StrikeInBounds(e);
      if e.Swept? {
        Strikes.DisciplinedSnoc(TrackerOps(init), Strikes.Sweep(e.covers, e.now, MAX_IDLE), MAX_WINDOW);
      } else if e.plan.Count? {
        OpsClock(init, e.now);
        Strikes.DisciplinedSnoc(TrackerOps(init), Strikes.Hit(e.ip, e.plan.strike), MAX_WINDOW);
      }
    }
  }

  lemma {:induction false} OpsWithoutSweeps(entries: seq<Entry>)
    ensures TrackerOps(WithoutSweeps(entries)) == Strikes.Stripped(TrackerOps(entries))
  {
    if entries != [] {
      var init, e := entries[..|entries| - 1], entries[|entries| - 1];
      OpsWithoutSweeps(init);
      var ops := TrackerOps(entries);
      if e.Swept? || e.plan.Count? {
        assert ops[..|ops| - 1] == TrackerOps(init);
      }
      if !e.Swept? {
        assert WithoutSweeps(entries)[..|WithoutSweeps(init)|] == WithoutSweeps(init);
      }
    }
  }

  /** One entry: its action does not depend on whether the tracker was swept before. */
  lemma ActionIgnoresSweeps(init: seq<Entry>, e: Entry)
    requires WellTimed(init + [e]) && e.Planned?
    ensures var ops := TrackerOps(init);
            ActionOf(Strikes.Run(ops), e.ip, e.plan) == ActionOf(Strikes.Run(Strikes.Stripped(ops)), e.ip, e.plan)
  {
    var all := init + [e];
    assert WellTimed(init) by {
      forall i | 0 <= i < |init| ensures StrikeInBounds(init[i]) { assert all[i] == init[i]; }
      forall i, j | 0 <= i < j < |init| && !init[j].Swept? ensures init[i].now <= init[j].now {
        assert !all[j].Swept? && all[i].now <= all[j].now;
      }
    }
    if e.plan.Count? {
      OpsDisciplined(init);
      assert all[|init|] == e && StrikeInBounds(all[|init|]);
      forall i | 0 <= i < |init| ensures init[i].now <= e.now {
        assert all[i].now <= all[|init|].now;
      }
      OpsClock(init, e.now);
      Strikes.ResultIgnoresSweeps(TrackerOps(init), MAX_WINDOW, e.ip, e.plan.strike);
    }
  }

  lemma {:induction false} EntrySweepsUnobservable(entries: seq<Entry>)
    requires WellTimed(entries)
    ensures Actions(WithoutSweeps(entries)) == Actions(entries)
  {
    if entries != [] {
      var init, e := entries[..|entries| - 1], entries[|entries| - 1];
      EntrySweepsUnobservable(init);
      if !e.Swept? {
        assert entries == init + [e];
        ActionIgnoresSweeps(init, e);
        OpsWithoutSweeps(init);
        assert WithoutSweeps(entries)[..|WithoutSweeps(init)|] == WithoutSweeps(init);
      }
    }
  }

  /** The daemon's minute sweep is unobservable, also while it is under way: it changes no action taken on any
      request or SSH event. */
  lemma DaemonSweepsUnobservable(p: Policy, events: seq<Event>)
    requires Chronological(events)
    ensures var entries := EntriesOf(p, events); Actions(WithoutSweeps(entries)) == Actions(entries)
  {
    EntriesWellTimed(p, events);
    EntrySweepsUnobservable(EntriesOf(p, events));
  }

  // ----- bursts, over whole runs

  /** The action a run's next event brings, given all events before it. */
  ghost function ActionAfter(p: Policy, events: seq<Event>, e: Event): Action {
    ActionOf(Strikes.Run(TrackerOps(EntriesOf(p, events))), AddressOf(e), EventPlan(p, e))
  }

  /** An error answer to a blocked tool at this address that is worth a strike. */
  ghost predicate ToolError(p: Policy, e: Event, ip: IpAddr) {
    && e.Http? && e.request.ip == ip
    && PastHeader(p, e.request) && ToolBlocked(p, e.request) && ToolErrs(p, e.request)
  }

  ghost predicate SshFailure(p: Policy, e: Event, ip: IpAddr) {
    e.Ssh? && e.event == AuthFailure(ip) && SshJudged(p, e.event)
  }

  /** A request from this address that would leave an isolated strike if it came to that. */
  ghost predicate IsolatedProbe(p: Policy, e: Event, ip: IpAddr) {
    e.Http? && e.request.ip == ip && DecisionOf(p, e.request).IsolatedStrike?
  }

  /** When the events of a kind happened. */
  ghost function Times(events: seq<Event>, kind: Event -> bool): seq<nat> {
    if events == [] then []
    else
      var last := events[|events| - 1];
      Times(events[..|events| - 1], kind) + if kind(last) then [last.now] else []
  }

  ghost function ToolErrorTimes(p: Policy, events: seq<Event>, ip: IpAddr): seq<nat> {
    Times(events, e => ToolError(p, e, ip))
  }

  ghost function SshFailureTimes(p: Policy, events: seq<Event>, ip: IpAddr): seq<nat> {
    Times(events, e => SshFailure(p, e, ip))
  }

  /** The last `n` of these times are there, and no two in a row lie further apart than `gap`. */
  ghost predicate Burst(times: seq<nat>, n: nat, gap: nat) {
    n <= |times| && forall k :: |times| - n < k < |times| ==> SaturatingSub(times[k], times[k - 1]) <= gap
  }

  ghost function Stamped(times: seq<nat>, at: nat -> Strikes.Strike): seq<Strikes.Strike> {
    seq(|times|, i requires 0 <= i < |times| => at(times[i]))
  }

  lemma EntriesSnoc(p: Policy, events: seq<Event>)
    requires events != []
    ensures var entries := EntriesOf(p, events);
            && entries[..|entries| - 1] == EntriesOf(p, events[..|events| - 1])
            && entries[|entries| - 1] == EntryOf(p, events[|events| - 1])
  {
  }

  lemma OpsSnoc(entries: seq<Entry>, ip: IpAddr, pool: Strikes.Pool)
    requires entries != []
    ensures var init, e := entries[..|entries| - 1], entries[|entries| - 1];
            Strikes.History(TrackerOps(entries), ip, pool)
            == Strikes.History(TrackerOps(init), ip, pool)
               + if e.Planned? && e.plan.Count? && e.ip == ip && e.plan.strike.pool == pool then [e.plan.strike] else []
  {
    var init, e := entries[..|entries| - 1], entries[|entries| - 1];
    if e.Swept? {
      Strikes.HistorySnoc(TrackerOps(init), Strikes.Sweep(e.covers, e.now, MAX_IDLE), ip, pool);
    } else if e.plan.Count? {
      Strikes.HistorySnoc(TrackerOps(init), Strikes.Hit(e.ip, e.plan.strike), ip, pool);
    }
  }

  /** Which events leave a tool strike. */
  lemma ToolStrikeIff(p: Policy, e: Event, ip: IpAddr)
    ensures var plan := EventPlan(p, e);
            && (plan.Count? && plan.strike.pool.Tool? && AddressOf(e) == ip && !e.SweepAt? <==> ToolError(p, e, ip))
            && (ToolError(p, e, ip) ==> plan.strike == ToolStrike(e.now))
  {
    if e.Http? {
      NormalizedPath(p, e.request);
    }
  }

  /** Which events leave an isolated strike. */
  lemma IsolatedStrikeIff(p: Policy, e: Event, ip: IpAddr)
    requires !IsolatedProbe(p, e, ip)
    ensures var plan := EventPlan(p, e);
            && (plan.Count? && plan.strike.pool.Isolated? && AddressOf(e) == ip && !e.SweepAt?
                <==> SshFailure(p, e, ip))
            && (SshFailure(p, e, ip) ==> plan.strike == SshStrike(e.now))
  {
    if e.Http? {
      NormalizedPath(p, e.request);
    }
  }

  lemma {:induction false} ToolHistory(p: Policy, events: seq<Event>, ip: IpAddr)
    ensures Strikes.History(TrackerOps(EntriesOf(p, events)), ip, Strikes.Tool)
         == Stamped(ToolErrorTimes(p, events, ip), ToolStrike)
  {
    if events != [] {
      var init, e := events[..|events| - 1], events[|events| - 1];
      ToolHistory(p, init, ip);
      EntriesSnoc(p, events);
      OpsSnoc(EntriesOf(p, events), ip, Strikes.Tool);
      ToolStrikeIff(p, e, ip);
    }
  }

  lemma {:induction false} SshHistory(p: Policy, events: seq<Event>, ip: IpAddr)
    requires forall i :: 0 <= i < |events| ==> !IsolatedProbe(p, events[i], ip)
    ensures Strikes.History(TrackerOps(EntriesOf(p, events)), ip, Strikes.Isolated)
         == Stamped(SshFailureTimes(p, events, ip), SshStrike)
  {
    if events != [] {
      var init, e := events[..|events| - 1], events[|events| - 1];
      SshHistory(p, init, ip);
      EntriesSnoc(p, events);
      OpsSnoc(EntriesOf(p, events), ip, Strikes.Isolated);
      IsolatedStrikeIff(p, e, ip);
    }
  }

  lemma BurstIsRun(times: seq<nat>, at: nat -> Strikes.Strike, cat: nat, n: nat, gap: nat)
    requires forall t :: at(t).now == t && at(t).window == gap && at(t).cat == cat
    ensures Burst(times, n, gap) <==> n <= Strikes.RunLength(Stamped(times, at))
  {
    var h := Stamped(times, at);
    if n <= |h| {
      Strikes.RunLengthIsLongestSuffix(h, n);
      var tail := h[|h| - n..];
      forall i | 0 < i < |tail|
        ensures Strikes.Follows(tail[i - 1], tail[i])
           <==> SaturatingSub(times[|h| - n + i], times[|h| - n + i - 1]) <= gap
      {
      }
      forall k | |times| - n < k < |times|
        ensures SaturatingSub(times[k], times[k - 1]) <= gap
           <==> Strikes.Follows(tail[k - (|h| - n) - 1], tail[k - (|h| - n)])
      {
      }
    } else {
      Strikes.RunLengthIsLongestSuffix(h, 0);
    }
  }

  /** What the tracker reports for a strike at the end of a run. */
  lemma StrikeAfterRun(p: Policy, events: seq<Event>, e: Event, ip: IpAddr, s: Strikes.Strike)
    requires Chronological(events + [e]) && !e.SweepAt?
    requires s.Valid() && s.now == e.now && s.window <= MAX_WINDOW
    ensures var ops := TrackerOps(EntriesOf(p, events));
            Strikes.ResultOf(Strikes.Run(ops), ip, s)
            == Strikes.Verdict(Strikes.History(ops, ip, s.pool) + [s], s.threshold)
  {
    var all, entries := events + [e], EntriesOf(p, events);
    assert all[|events|] == e;
    assert Chronological(events) by {
      forall i | 0 <= i < |events| ensures events[i].now >= 1 {
        assert all[i] == events[i];
      }
      forall i, j | 0 <= i < j < |events| && !events[j].SweepAt? ensures events[i].now <= events[j].now {
        assert all[i] == events[i] && all[j] == events[j];
      }
    }
    forall i | 0 <= i < |entries| ensures entries[i].now <= e.now {
      assert all[i] == events[i] && all[i].now <= all[|events|].now;
    }
    EntriesWellTimed(p, events);
    OpsClock(entries, e.now);
    OpsDisciplined(entries);
    Strikes.DisciplinedSnoc(TrackerOps(entries), Strikes.Hit(ip, s), MAX_WINDOW);
    Strikes.StrikeReportsHistory(TrackerOps(entries), MAX_WINDOW, ip, s);
  }

  lemma StampedSnoc(times: seq<nat>, t: nat, at: nat -> Strikes.Strike)
    ensures Stamped(times, at) + [at(t)] == Stamped(times + [t], at)
  {
  }

  /** A blocked tool's error answer is banned exactly when it is the tenth in a row, or later, with no gap of
      more than ten seconds. */
  lemma TenthToolErrorIsBanned(p: Policy, events: seq<Event>, e: Event, ip: IpAddr)
    requires Chronological(events + [e]) && ToolError(p, e, ip)
    ensures var a := ActionAfter(p, events, e);
            if Burst(ToolErrorTimes(p, events, ip) + [e.now], 10, 10)
            then a == Ban(ToolErrorBurst(BotOf(p, e.request)), false) else a == Allow
  {
    var times := ToolErrorTimes(p, events, ip);
    assert (events + [e])[|events|] == e;
    ToolStrikeIff(p, e, ip);
    ToolHistory(p, events, ip);
    StrikeAfterRun(p, events, e, ip, ToolStrike(e.now));
    StampedSnoc(times, e.now, ToolStrike);
    BurstIsRun(times + [e.now], ToolStrike, 0, 10, 10);
    ToolDecision(p, e.request, Strikes.Run(TrackerOps(EntriesOf(p, events))), e.now);
  }

  /** An SSH failure is banned exactly when it is the fifth in a row, or later, with no gap of more than 300
      seconds, unless web requests from the address have left strikes in the same pool. */
  lemma FifthSshFailureIsBanned(p: Policy, events: seq<Event>, e: Event, ip: IpAddr)
    requires Chronological(events + [e]) && SshFailure(p, e, ip)
    requires forall i :: 0 <= i < |events| ==> !IsolatedProbe(p, events[i], ip)
    ensures var a := ActionAfter(p, events, e);
            if Burst(SshFailureTimes(p, events, ip) + [e.now], 5, 300)
            then exists n :: n >= 5 && a == Ban(SshAuthFailures(n), false) else a == Allow
  {
    var times := SshFailureTimes(p, events, ip);
    assert (events + [e])[|events|] == e;
    SshHistory(p, events, ip);
    StrikeAfterRun(p, events, e, ip, SshStrike(e.now));
    StampedSnoc(times, e.now, SshStrike);
    BurstIsRun(times + [e.now], SshStrike, 1, 5, 300);
    SshDecision(p, e.event, Strikes.Run(TrackerOps(EntriesOf(p, events))), e.now);
  }
}
