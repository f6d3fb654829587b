/** The probe classifier (src/intelligence/probes.rs) over the outcome of its path tests. The literal pattern
    lists are not modelled: each test of the source is one boolean of `PathFacts`, so a statement about all
    facts covers every path. */
module Probes {
  import opened Wrappers

  datatype Category =
    | Common | Cloud | Ssh | Vcs | Ide | Wordpress | Php | Laravel | Actuator | Webmail | Backups
  {
    function AsU8(): nat {
      match this
      case Common => 1
      case Cloud => 2
      case Ssh => 3
      case Vcs => 4
      case Ide => 5
      case Wordpress => 6
      case Php => 7
      case Laravel => 8
      case Actuator => 9
      case Webmail => 10
      case Backups => 11
    }
  }

  /** Categories keep separate counts: no two share a number. */
  lemma CategoriesApart(a: Category, b: Category)
    ensures a.AsU8() == b.AsU8() <==> a == b
  {
  }

  datatype ThreatDecision =
    | Pass
    | InstantBan(category: Category)
    | SharedStrike(category: Category, threshold: nat, window: nat)
    | IsolatedStrike(category: Category, threshold: nat, window: nat)

  datatype Verb = Get | Head | Query | Other {
    predicate IsGetOrHead() { Get? || Head? }
    predicate IsSafeQuery() { Get? || Head? || Query? }
  }

  datatype PathFacts = PathFacts(
    wellKnown: bool, traversal: bool, nullByte: bool, shell: bool, mstshash: bool, viteProc: bool, phpRce: bool,
    ignition: bool, webshell: bool, dotSegment: bool, git: bool, svnBzrBash: bool, hg: bool, dsStore: bool,
    sensitiveDotfile: bool, sshKey: bool, sshDir: bool, ideDotfile: bool, cloudCredentials: bool, credentials: bool,
    gcpKey: bool, cloudDotdir: bool, configDir: bool, env: bool, dotWpConfig: bool, wpL0gin: bool, wpFileManager: bool,
    wpJsonInfo: bool, wooStripe: bool, wpInstant: bool, wpLogin: bool, wlwManifest: bool, wpAdminInclude: bool,
    actuatorSecret: bool, actuator: bool, telescopeHorizon: bool, webmail: bool, backupExtension: bool,
    systemFile: bool, procBoaform: bool, backupOrConfig: bool, python: bool, nbproject: bool, cloudSecret: bool,
    phpAdmin: bool, phpTag: bool, phpScript: bool, cgiBin: bool, phpInfo: bool, phpBackup: bool)

  /** The shape of every strike the classifier hands out. */
  ghost predicate InBounds(d: ThreatDecision) {
    match d
    case Pass => true
    case InstantBan(_) => true
    case SharedStrike(_, threshold, window) => 2 <= threshold <= 4 && (window == 10 || window == 15)
    case IsolatedStrike(_, threshold, window) => 3 <= threshold <= 15 && window == 10
  }

  predicate OkOrRedirect(status: nat) {
    status == 200 || status == 301 || status == 302
  }

  predicate SuccessOrRedirect(status: nat) {
    200 <= status <= 207 || status == 301 || status == 302
  }

  predicate WpErrorStatus(status: nat) {
    status == 400 || status == 403 || status == 404 || status == 405 || status == 444
  }

  function InspectStage1(v: Verb, p: PathFacts, status: nat): (r: Option<ThreatDecision>)
    ensures r.Some? ==> InBounds(r.value)
  {
    if p.traversal || p.nullByte then Some(InstantBan(Common))
    else if p.shell then
      if !v.IsSafeQuery() then Some(InstantBan(Common))
      else if status != 200 then Some(SharedStrike(Common, 3, 10))
      else Some(Pass)
    else if p.mstshash && status != 200 then Some(InstantBan(Common))
    else if p.viteProc && status != 200 then Some(InstantBan(Common))
    else if p.phpRce then Some(InstantBan(Php))
    else if p.ignition then Some(InstantBan(Laravel))
    else if p.webshell then Some(InstantBan(Wordpress))
    else None
  }

  function InspectDotfilesVcs(v: Verb, p: PathFacts, status: nat): (r: Option<ThreatDecision>)
    ensures r.Some? ==> InBounds(r.value)
  {
    if p.git && !OkOrRedirect(status) then
      if v.IsSafeQuery() then Some(SharedStrike(Vcs, 3, 10)) else Some(InstantBan(Vcs))
    else if p.svnBzrBash then Some(InstantBan(Vcs))
    else if p.hg && !SuccessOrRedirect(status) then Some(InstantBan(Vcs))
    else if p.dsStore && status != 200 then
      if v.IsGetOrHead() then Some(IsolatedStrike(Vcs, 3, 10)) else Some(InstantBan(Vcs))
    else if p.sensitiveDotfile then Some(InstantBan(Vcs))
    else None
  }

  /** The private-key test shared by the dotfile and the stand-alone stages. */
  function InspectSshKey(v: Verb): (r: ThreatDecision)
    ensures InBounds(r)
  {
    if v.IsGetOrHead() then SharedStrike(Ssh, 2, 10) else InstantBan(Ssh)
  }

  function InspectDotfilesSsh(v: Verb, p: PathFacts, status: nat): (r: Option<ThreatDecision>)
    ensures r.Some? ==> InBounds(r.value)
  {
    if p.sshKey && status != 200 then Some(InspectSshKey(v))
    else if p.sshDir && !SuccessOrRedirect(status) then Some(InstantBan(Ssh))
    else None
  }

  /** The three cloud-credential tests shared by the dotfile and the stand-alone stages. */
  function InspectCloudKeys(v: Verb, p: PathFacts, status: nat): (r: Option<ThreatDecision>)
    ensures r.Some? ==> InBounds(r.value)
  {
    if p.cloudCredentials && status != 200 then
      if v.IsGetOrHead() then Some(SharedStrike(Cloud, 2, 10)) else Some(InstantBan(Cloud))
    else if p.credentials && status != 200 then Some(SharedStrike(Cloud, 2, 10))
    else if p.gcpKey && status != 200 then Some(InstantBan(Cloud))
    else None
  }

  function InspectDotfilesCloud(v: Verb, p: PathFacts, status: nat): (r: Option<ThreatDecision>)
    ensures r.Some? ==> InBounds(r.value)
  {
    var keys := InspectCloudKeys(v, p, status);
    if keys.Some? then keys
    else if p.cloudDotdir && !SuccessOrRedirect(status) then Some(InstantBan(Cloud))
    else if p.configDir && !SuccessOrRedirect(status) then
      if v.IsGetOrHead() then Some(SharedStrike(Cloud, 3, 10)) else Some(InstantBan(Cloud))
    else None
  }

  function InspectDotfiles(v: Verb, p: PathFacts, status: nat): (r: Option<ThreatDecision>)
    ensures r.Some? ==> InBounds(r.value)
  {
    var vcs, ssh, cloud := InspectDotfilesVcs(v, p, status), InspectDotfilesSsh(v, p, status),
                           InspectDotfilesCloud(v, p, status);
    if vcs.Some? then vcs
    else if ssh.Some? then ssh
    else if p.ideDotfile && status != 200 then Some(InstantBan(Ide))
    else if cloud.Some? then cloud
    else if p.env && status != 200 then
      if v.IsSafeQuery() then Some(SharedStrike(Common, 3, 10)) else Some(InstantBan(Common))
    else if p.dotWpConfig && (status == 400 || status == 403 || status == 404 || status == 444) then
      Some(InstantBan(Wordpress))
    else None
  }

  function InspectWordpress(v: Verb, p: PathFacts, status: nat): (r: Option<ThreatDecision>)
    ensures r.Some? ==> InBounds(r.value)
  {
    if p.wpL0gin && status != 200 then Some(InstantBan(Wordpress))
    else if p.wpFileManager && status != 200 then Some(InstantBan(Wordpress))
    else if p.wpJsonInfo && status == 444 then Some(InstantBan(Wordpress))
    else if p.wooStripe && !(OkOrRedirect(status) || status == 400 || status == 401 || status == 403 || status == 500)
    then Some(InstantBan(Wordpress))
    else if p.wpInstant && WpErrorStatus(status) then Some(InstantBan(Wordpress))
    else if p.wpLogin && (status == 404 || status == 405 || status == 444) then Some(SharedStrike(Wordpress, 4, 10))
    else if p.wlwManifest && status != 200 then Some(SharedStrike(Wordpress, 2, 10))
    else if p.wpAdminInclude && WpErrorStatus(status) then
      Some(IsolatedStrike(Wordpress, if v.IsSafeQuery() then 7 else 5, 10))
    else None
  }

  function InspectCommonError(v: Verb, p: PathFacts, status: nat): (r: Option<ThreatDecision>)
    ensures r.Some? ==> InBounds(r.value)
  {
    if status == 200 then None
    else if p.systemFile then
      if v.IsSafeQuery() then Some(SharedStrike(Common, 3, 10)) else Some(InstantBan(Common))
    else if p.procBoaform then Some(InstantBan(Common))
    else if p.backupOrConfig then
      if v.IsSafeQuery() then Some(SharedStrike(Common, 3, 10)) else Some(InstantBan(Common))
    else if p.python then
      if v.IsSafeQuery() then Some(IsolatedStrike(Common, 3, 10)) else Some(InstantBan(Common))
    else if p.nbproject then Some(InstantBan(Ide))
    else if p.cloudSecret then Some(InstantBan(Cloud))
    else None
  }

  function InspectPhp(v: Verb, p: PathFacts, status: nat): (r: Option<ThreatDecision>)
    ensures r.Some? ==> InBounds(r.value)
  {
    if p.cgiBin && status != 200 then
      if v.IsGetOrHead() then Some(SharedStrike(Php, 3, 10)) else Some(InstantBan(Php))
    else if p.phpInfo && status != 200 then Some(InstantBan(Php))
    else if p.phpBackup && status != 200 then Some(InstantBan(Php))
    else if p.phpAdmin && !OkOrRedirect(status) then Some(SharedStrike(Php, 3, 15))
    else if p.phpTag && !(status == 200 || status == 400 || status == 403) then
      if v.IsSafeQuery() then Some(SharedStrike(Php, 3, 10)) else Some(InstantBan(Php))
    else if p.phpScript && !OkOrRedirect(status) then Some(IsolatedStrike(Php, 15, 10))
    else None
  }

  function InspectStage4(v: Verb, p: PathFacts, status: nat): (r: Option<ThreatDecision>)
    ensures r.Some? ==> InBounds(r.value)
  {
    var wordpress, keys, common := InspectWordpress(v, p, status), InspectCloudKeys(v, p, status),
                                   InspectCommonError(v, p, status);
    if wordpress.Some? then wordpress
    else if p.actuatorSecret && status != 200 then Some(InstantBan(Actuator))
    else if p.actuator && status != 200 then Some(SharedStrike(Actuator, 3, 10))
    else if p.telescopeHorizon && !OkOrRedirect(status) then Some(SharedStrike(Laravel, 2, 10))
    else if p.webmail && !OkOrRedirect(status) then Some(SharedStrike(Webmail, 3, 15))
    else if p.backupExtension && status != 200 then Some(IsolatedStrike(Backups, 5, 10))
    else if p.sshKey && status != 200 then Some(InspectSshKey(v))
    else if keys.Some? then keys
    else if common.Some? then common
    else InspectPhp(v, p, status)
  }

  /** Every strike of the classifier has a threshold between 2 and 15 and a window of 10 or 15 seconds. */
  function InspectThreat(v: Verb, p: PathFacts, status: nat): (d: ThreatDecision)
    ensures InBounds(d)
  {
    if p.wellKnown && 200 <= status <= 399 then Pass
    else
      var stage1 := InspectStage1(v, p, status);
      if stage1.Some? then stage1.value
      else
        var dotfiles := InspectDotfiles(v, p, status);
        if p.dotSegment && dotfiles.Some? then dotfiles.value
        else if status == 200 || status == 304 then Pass
        else
          var stage4 := InspectStage4(v, p, status);
          if stage4.Some? then stage4.value else Pass
  }
  /** No harsher: the same or nothing, a higher threshold in the same pool, or anything but a ban. */
  predicate NoHarsher(a: ThreatDecision, b: ThreatDecision) {
    || a == b || a.Pass? || b.InstantBan?
    || (a.IsolatedStrike? && b.IsolatedStrike? && a.category == b.category && a.window == b.window
        && a.threshold >= b.threshold)
  }

  predicate Milder(v: Verb, w: Verb) {
    v == w || v.IsGetOrHead() || (v.Query? && w.Other?)
  }

  ghost predicate InOrder(v: Verb, w: Verb, a: Option<ThreatDecision>, b: Option<ThreatDecision>) {
    && a.Some? == b.Some? && (a.Some? ==> NoHarsher(a.value, b.value))
    && (v.IsGetOrHead() && w.IsGetOrHead() ==> a == b)
  }

  lemma DotfilesInOrder(v: Verb, w: Verb, p: PathFacts, status: nat)
    requires Milder(v, w)
    ensures InOrder(v, w, InspectDotfiles(v, p, status), InspectDotfiles(w, p, status))
  {
    assert InOrder(v, w, InspectDotfilesVcs(v, p, status), InspectDotfilesVcs(w, p, status));
    assert InOrder(v, w, InspectDotfilesSsh(v, p, status), InspectDotfilesSsh(w, p, status));
    CloudInOrder(v, w, p, status);
  }

  lemma CloudInOrder(v: Verb, w: Verb, p: PathFacts, status: nat)
    requires Milder(v, w)
    ensures InOrder(v, w, InspectCloudKeys(v, p, status), InspectCloudKeys(w, p, status))
    ensures InOrder(v, w, InspectDotfilesCloud(v, p, status), InspectDotfilesCloud(w, p, status))
  {
  }

  lemma WordpressInOrder(v: Verb, w: Verb, p: PathFacts, status: nat)
    requires Milder(v, w)
    ensures InOrder(v, w, InspectWordpress(v, p, status), InspectWordpress(w, p, status))
  {
  }

  lemma CommonInOrder(v: Verb, w: Verb, p: PathFacts, status: nat)
    requires Milder(v, w)
    ensures InOrder(v, w, InspectCommonError(v, p, status), InspectCommonError(w, p, status))
  {
  }

  lemma PhpInOrder(v: Verb, w: Verb, p: PathFacts, status: nat)
    requires Milder(v, w)
    ensures InOrder(v, w, InspectPhp(v, p, status), InspectPhp(w, p, status))
  {
  }

  lemma Stage4InOrder(v: Verb, w: Verb, p: PathFacts, status: nat)
    requires Milder(v, w)
    ensures InOrder(v, w, InspectStage4(v, p, status), InspectStage4(w, p, status))
  {
    WordpressInOrder(v, w, p, status);
    CloudInOrder(v, w, p, status);
    CommonInOrder(v, w, p, status);
    PhpInOrder(v, w, p, status);
  }

  /** On any path and status GET and HEAD are treated alike and no harsher than QUERY, and that no harsher than
      any other method. */
  lemma VerbsOrdered(v: Verb, w: Verb, p: PathFacts, status: nat)
    requires Milder(v, w)
    ensures NoHarsher(InspectThreat(v, p, status), InspectThreat(w, p, status))
    ensures v.IsGetOrHead() && w.IsGetOrHead() ==> InspectThreat(v, p, status) == InspectThreat(w, p, status)
  {
    assert InOrder(v, w, InspectStage1(v, p, status), InspectStage1(w, p, status));
    DotfilesInOrder(v, w, p, status);
    Stage4InOrder(v, w, p, status);
  }
}
