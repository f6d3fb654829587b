/** The rule synchroniser (src/cloudflare/worker.rs) and its notifiers (src/ipc/handlers.rs,
    src/engine/watcher.rs) as interleaved atomic steps over the store and a bounded channel. */
module SyncWorker {
  import opened Bits
  import opened Store
  import opened Wrappers
  import Expression
  import Cidr
  import Pipeline
  import Strikes

  const CAPACITY: nat := 100

  /** Where the worker's loop stands, with what it has read so far. */
  datatype Worker =
    | Waiting
    | Sleeping
    | Draining
    | Reading
    | GotBlocked(blocked: seq<u32>)
    | GotRestricted(blocked: seq<u32>, restricted: seq<u32>)
    | GotRegions(blocked: seq<u32>, restricted: seq<u32>, regions: seq<string>)
    | Pushing(expr: string)
    | Recording(expr: string)

  /** `unsent` counts writers between their store write and their send. `clean` is a history variable:
      nothing has failed, and nothing has changed behind the worker's back, since it last began to read. */
  datatype State = State(store: Tables, recorded: Option<string>, worker: Worker, channel: nat, unsent: nat,
                         sends: nat, received: nat, pushes: nat, clean: bool)

  datatype Step =
    | Write(tables: Tables)                                // a handler or watcher writes the store
    | Send                                                 // ... and then notifies the worker
    | WriteUnrendered(tables: Tables)                      // ... or writes only what no rule is made from
    | Unannounced(tables: Tables, state: Option<string>)   // expiry, configuration, a manual sync
    | Receive
    | Wake
    | DrainOne
    | DrainDone
    | ReadBlocked(ok: bool)
    | ReadRestricted(ok: bool)
    | ReadRegions(ok: bool)
    | ReadBans(ok: bool)
    | Push(ok: bool)
    | Record(ok: bool)

  /** The renderer, as a function of the four tables it reads; the protocol works for any. */
  type Renderer = (seq<u32>, seq<u32>, seq<string>, seq<Ban>) -> string

  function RenderedStore(render: Renderer, t: Tables): string {
    render(t.blockedAsns, t.restrictedAsns, t.allowedRegions, t.bans)
  }

  /** The four tables the worker reads are the same. */
  predicate SameRule(t: Tables, u: Tables) {
    && t.blockedAsns == u.blockedAsns && t.restrictedAsns == u.restrictedAsns
    && t.allowedRegions == u.allowedRegions && t.bans == u.bans
  }

  /** Start-up writes nothing but counts as a notifier: it sends once as soon as the worker exists. */
  function Start(t: Tables, recorded: Option<string>): State {
    State(t, recorded, Waiting, 0, 1, 0, 0, 0, false)
  }

  /** The state after a step, or none if the step is not enabled. */
  function Next(render: Renderer, s: State, step: Step): Option<State> {
    match (step, s.worker)
    case (Write(t), _) => Some(s.(store := t, unsent := s.unsent + 1))
    case (Send, _) =>
      if s.unsent > 0 && s.channel < CAPACITY
      then Some(s.(unsent := s.unsent - 1, channel := s.channel + 1, sends := s.sends + 1)) else None
    case (WriteUnrendered(t), _) => if SameRule(t, s.store) then Some(s.(store := t)) else None
    case (Unannounced(t, r), _) => Some(s.(store := t, recorded := r, clean := false))
    case (Receive, Waiting) =>
      if s.channel > 0
      then Some(s.(channel := s.channel - 1, received := s.received + 1, worker := Sleeping)) else None
    case (Wake, Sleeping) => Some(s.(worker := Draining))
    case (DrainOne, Draining) =>
      if s.channel > 0 then Some(s.(channel := s.channel - 1, received := s.received + 1)) else None
    case (DrainDone, Draining) =>
      if s.channel == 0 then Some(s.(worker := Reading, clean := true)) else None
    case (ReadBlocked(ok), Reading) =>
      Some(s.(worker := GotBlocked(if ok then s.store.blockedAsns else []), clean := s.clean && ok))
    case (ReadRestricted(ok), GotBlocked(b)) =>
      Some(s.(worker := GotRestricted(b, if ok then s.store.restrictedAsns else []), clean := s.clean && ok))
    case (ReadRegions(ok), GotRestricted(b, r)) =>
      Some(s.(worker := GotRegions(b, r, if ok then s.store.allowedRegions else []), clean := s.clean && ok))
    case (ReadBans(ok), GotRegions(b, r, g)) =>
      if ok then Some(s.(worker := Pushing(render(b, r, g, s.store.bans))))
      else Some(s.(worker := Waiting, clean := false))
    case (Push(ok), Pushing(e)) =>
      if ok then Some(s.(worker := Recording(e), pushes := s.pushes + 1))
      else Some(s.(worker := Waiting, pushes := s.pushes + 1, clean := false))
    case (Record(ok), Recording(e)) =>
      if ok then Some(s.(worker := Waiting, recorded := Some(e)))
      else Some(s.(worker := Waiting, clean := false))
    case _ => None
  }

  ghost predicate IsRun(render: Renderer, states: seq<State>, steps: seq<Step>) {
    && |states| == |steps| + 1
    && forall i :: 0 <= i < |steps| ==> Next(render, states[i], steps[i]) == Some(states[i + 1])
  }

  /** Nothing is on its way: no notification queued, none owed. */
  predicate Settled(s: State) {
    s.channel == 0 && s.unsent == 0
  }

  predicate Quiescent(s: State) {
    Settled(s) && s.worker.Waiting?
  }

  /** When nothing is on its way, whatever the worker holds is what the store holds. */
  ghost predicate UpToDate(render: Renderer, s: State) {
    s.clean && Settled(s) ==>
      match s.worker
      case Waiting => s.recorded == Some(RenderedStore(render, s.store))
      case Sleeping => true
      case Draining => true
      case Reading => true
      case GotBlocked(b) => b == s.store.blockedAsns
      case GotRestricted(b, r) => b == s.store.blockedAsns && r == s.store.restrictedAsns
      case GotRegions(b, r, g) =>
        b == s.store.blockedAsns && r == s.store.restrictedAsns && g == s.store.allowedRegions
      case Pushing(e) => e == RenderedStore(render, s.store)
      case Recording(e) => e == RenderedStore(render, s.store)
  }

  /** A round under way has consumed a message it has not pushed for yet. */
  function RoundsOpen(w: Worker): nat {
    if w.Waiting? || w.Recording? then 0 else 1
  }

  ghost predicate Bookkeeping(s: State) {
    && s.channel <= CAPACITY
    && s.sends == s.received + s.channel
    && s.pushes + RoundsOpen(s.worker) <= s.received
  }

  lemma StepKeepsUpToDate(render: Renderer, s: State, step: Step)
    requires UpToDate(render, s) && Next(render, s, step).Some?
    ensures UpToDate(render, Next(render, s, step).value)
  {
  }

  lemma StepKeepsBookkeeping(render: Renderer, s: State, step: Step)
    requires Bookkeeping(s) && Next(render, s, step).Some?
    ensures Bookkeeping(Next(render, s, step).value)
  {
  }

  lemma {:induction false} RunInvariant(render: Renderer, states: seq<State>, steps: seq<Step>, i: nat)
    requires IsRun(render, states, steps) && i < |states|
    requires exists t, r :: states[0] == Start(t, r)
    ensures UpToDate(render, states[i]) && Bookkeeping(states[i])
  {
    if i > 0 {
      RunInvariant(render, states, steps, i - 1);
      assert Next(render, states[i - 1], steps[i - 1]) == Some(states[i - 1 + 1]);
      StepKeepsUpToDate(render, states[i - 1], steps[i - 1]);
      StepKeepsBookkeeping(render, states[i - 1], steps[i - 1]);
    }
  }

  /** Safety, in every interleaving of writers and worker: whenever the worker waits with nothing on its
      way and its last round ran undisturbed, the recorded expression is the rendering of the current store. */
  lemma SyncedWhenQuiescent(render: Renderer, states: seq<State>, steps: seq<Step>, i: nat)
    requires IsRun(render, states, steps) && i < |states|
    requires exists t, r :: states[0] == Start(t, r)
    requires Quiescent(states[i]) && states[i].clean
    ensures states[i].recorded == Some(RenderedStore(render, states[i].store))
  {
    RunInvariant(render, states, steps, i);
  }

  predicate Undisturbed(step: Step) {
    match step
    case Unannounced(_, _) => false
    case ReadBlocked(ok) => ok
    case ReadRestricted(ok) => ok
    case ReadRegions(ok) => ok
    case ReadBans(ok) => ok
    case Push(ok) => ok
    case Record(ok) => ok
    case _ => true
  }

  ghost predicate CleanOnceStarted(s: State) {
    s.clean || s.worker.Sleeping? || s.worker.Draining? || (s.worker.Waiting? && !Settled(s))
  }

  /** In a run where every read and push succeeds and nothing changes unannounced, the worker never waits
      settled without being in sync. */
  lemma {:induction false} UndisturbedStaysClean(render: Renderer, states: seq<State>, steps: seq<Step>, i: nat)
    requires IsRun(render, states, steps) && i < |states|
    requires exists t, r :: states[0] == Start(t, r)
    requires forall k :: 0 <= k < i ==> Undisturbed(steps[k])
    ensures CleanOnceStarted(states[i])
  {
    if i > 0 {
      UndisturbedStaysClean(render, states, steps, i - 1);
      assert Undisturbed(steps[i - 1]);
      assert Next(render, states[i - 1], steps[i - 1]) == Some(states[i - 1 + 1]);
    }
  }

  lemma SyncedInUndisturbedRuns(render: Renderer, states: seq<State>, steps: seq<Step>, i: nat)
    requires IsRun(render, states, steps) && i < |states|
    requires exists t, r :: states[0] == Start(t, r)
    requires forall k :: 0 <= k < i ==> Undisturbed(steps[k])
    requires Quiescent(states[i])
    ensures states[i].recorded == Some(RenderedStore(render, states[i].store))
  {
    UndisturbedStaysClean(render, states, steps, i);
    SyncedWhenQuiescent(render, states, steps, i);
  }

  /** Bursts coalesce: pushes never exceed sends. */
  lemma PushesNeverExceedSends(render: Renderer, states: seq<State>, steps: seq<Step>, i: nat)
    requires IsRun(render, states, steps) && i < |states|
    requires exists t, r :: states[0] == Start(t, r)
    ensures states[i].pushes <= states[i].sends - states[i].channel
  {
    RunInvariant(render, states, steps, i);
  }

  /** Notified, but not yet reading the store. */
  predicate Gathering(w: Worker) {
    w.Sleeping? || w.Draining?
  }

  /** Whatever notifications reach a worker before it reads cost one push: until the next one is sent, there is
      no second. */
  lemma {:induction false} BurstCostsOnePush(render: Renderer, states: seq<State>, steps: seq<Step>, n: nat, i: nat)
    requires IsRun(render, states, steps) && n <= i < |states|
    requires Gathering(states[n].worker)
    requires forall k :: n <= k < i ==> !steps[k].Send?
    ensures Gathering(states[i].worker) || states[i].channel == 0
    ensures states[i].pushes + (if Gathering(states[i].worker) then 1 else RoundsOpen(states[i].worker))
         <= states[n].pushes + 1
    decreases i
  {
    if i > n {
      BurstCostsOnePush(render, states, steps, n, i - 1);
      assert !steps[i - 1].Send?;
      assert Next(render, states[i - 1], steps[i - 1]) == Some(states[i - 1 + 1]);
    }
  }

  /** The text has been pushed, and with success, before step `i`. */
  ghost predicate Pushed(states: seq<State>, steps: seq<Step>, e: string, i: int) {
    exists k :: 0 <= k < i <= |steps| < |states| && steps[k] == Push(true) && states[k].worker == Pushing(e)
  }

  /** Only what was pushed is recorded, by the worker itself. */
  lemma {:induction false} RecordedWasPushed(render: Renderer, states: seq<State>, steps: seq<Step>, i: nat)
    requires IsRun(render, states, steps) && i < |states|
    requires states[0].worker == Waiting
    requires forall k :: 0 <= k < i ==> !steps[k].Unannounced?
    ensures states[i].recorded == states[0].recorded
            || (states[i].recorded.Some? && Pushed(states, steps, states[i].recorded.value, i))
    ensures states[i].worker.Recording? ==> Pushed(states, steps, states[i].worker.expr, i)
  {
    if i > 0 {
      RecordedWasPushed(render, states, steps, i - 1);
      assert !steps[i - 1].Unannounced?;
      assert Next(render, states[i - 1], steps[i - 1]) == Some(states[i - 1 + 1]);
    }
  }

  // ----- progress

  function Stage(w: Worker): nat {
    match w
    case Waiting => 0
    case Recording(_) => 1
    case Pushing(_) => 2
    case GotRegions(_, _, _) => 3
    case GotRestricted(_, _) => 4
    case GotBlocked(_) => 5
    case Reading => 6
    case Draining => 7
    case Sleeping => 8
  }

  /** An upper bound on the steps left once writers stop. */
  function Rank(s: State): nat {
    10 * (2 * s.unsent + s.channel) + Stage(s.worker)
  }

  predicate ByWriterOrOutside(step: Step) {
    step.Write? || step.WriteUnrendered? || step.Unannounced?
  }

  /** Unless it is quiescent, the system can move without any new write, whatever succeeds or fails. */
  lemma NoDeadlock(render: Renderer, s: State) returns (step: Step)
    requires !Quiescent(s)
    ensures !ByWriterOrOutside(step) && Undisturbed(step) && Next(render, s, step).Some?
  {
    match s.worker {
      case Waiting => step := if s.channel > 0 then Receive else Send;
      case Sleeping => step := Wake;
      case Draining => step := if s.channel > 0 then DrainOne else DrainDone;
      case Reading => step := ReadBlocked(true);
      case GotBlocked(_) => step := ReadRestricted(true);
      case GotRestricted(_, _) => step := ReadRegions(true);
      case GotRegions(_, _, _) => step := ReadBans(true);
      case Pushing(_) => step := Push(true);
      case Recording(_) => step := Record(true);
    }
  }

  lemma StepLowersRank(render: Renderer, s: State, step: Step)
    requires !ByWriterOrOutside(step) && Next(render, s, step).Some?
    ensures Rank(Next(render, s, step).value) < Rank(s)
  {
  }

  /** Once writers stop, every run is over within `Rank` steps. */
  lemma {:induction false} QuietRunsAreShort(render: Renderer, states: seq<State>, steps: seq<Step>, n: nat, i: nat)
    requires IsRun(render, states, steps) && n <= i < |states|
    requires forall k :: n <= k < |steps| ==> !ByWriterOrOutside(steps[k])
    ensures i - n + Rank(states[i]) <= Rank(states[n])
    decreases i
  {
    if i > n {
      QuietRunsAreShort(render, states, steps, n, i - 1);
      assert !ByWriterOrOutside(steps[i - 1]);
      assert Next(render, states[i - 1], steps[i - 1]) == Some(states[i - 1 + 1]);
      StepLowersRank(render, states[i - 1], steps[i - 1]);
    }
  }

  /** Without new writes and changes from outside, nothing more can happen. */
  ghost predicate Stuck(render: Renderer, s: State) {
    forall step :: !ByWriterOrOutside(step) ==> Next(render, s, step).None?
  }

  lemma StuckIffQuiescent(render: Renderer, s: State)
    ensures Stuck(render, s) <==> Quiescent(s)
  {
    if !Quiescent(s) {
      var step := NoDeadlock(render, s);
    }
  }

  /** Liveness: once writers have stopped, after step `n`, a run has at most `Rank` steps left; if it cannot go
      on it is quiescent; and if nothing failed or changed unannounced the recorded rule is then the store's. */
  lemma WritersStopThenSynced(render: Renderer, states: seq<State>, steps: seq<Step>, n: nat)
    requires IsRun(render, states, steps) && n <= |steps|
    requires exists t, r :: states[0] == Start(t, r)
    requires forall k :: n <= k < |steps| ==> !ByWriterOrOutside(steps[k])
    ensures |steps| - n <= Rank(states[n])
    ensures var last := states[|steps|];
            Stuck(render, last) ==>
              && Quiescent(last)
              && ((forall k :: 0 <= k < |steps| ==> Undisturbed(steps[k]))
                  ==> last.recorded == Some(RenderedStore(render, last.store)))
  {
    QuietRunsAreShort(render, states, steps, n, |steps|);
    StuckIffQuiescent(render, states[|steps|]);
    if Stuck(render, states[|steps|]) && forall k :: 0 <= k < |steps| ==> Undisturbed(steps[k]) {
      SyncedInUndisturbedRuns(render, states, steps, |steps|);
    }
  }

  /** And every run can go on, undisturbed and without new writes, until it is quiescent. */
  lemma {:induction false} CanSettle(render: Renderer, states: seq<State>, steps: seq<Step>)
    returns (states': seq<State>, steps': seq<Step>)
    requires IsRun(render, states, steps)
    ensures IsRun(render, states', steps') && states <= states' && steps <= steps'
    ensures Quiescent(states'[|steps'|])
    ensures forall k :: |steps| <= k < |steps'| ==> !ByWriterOrOutside(steps'[k]) && Undisturbed(steps'[k])
    decreases Rank(states[|steps|])
  {
    var last := states[|steps|];
    if Quiescent(last) {
      return states, steps;
    }
    var step := NoDeadlock(render, last);
    StepLowersRank(render, last, step);
    var next := Next(render, last, step).value;
    var states1, steps1 := states + [next], steps + [step];
    assert IsRun(render, states1, steps1) by {
      forall i | 0 <= i < |steps1| ensures Next(render, states1[i], steps1[i]) == Some(states1[i + 1]) {
        if i < |steps| {
          assert Next(render, states[i], steps[i]) == Some(states[i + 1]);
        }
      }
    }
    states', steps' := CanSettle(render, states1, steps1);
    assert states <= states1 && steps <= steps1 && steps1[|steps|] == steps'[|steps|];
  }

  // ----- the producers

  datatype Edit = Add | Remove | List

  /** What writes the store: the commands of the control socket, and the watchers' bans. */
  datatype Command =
    | Ban(refused: bool)        // private and loopback addresses are refused, with a message and no error
    | Unban
    | Whitelist(edit: Edit)
    | Category(edit: Edit)
    | Asn(edit: Edit)
    | Region(edit: Edit)
    | Query                     // status, check, list
    | WatcherBan

  /** What a command may leave in the store: it writes one table, or none when it fails. */
  ghost predicate Effect(c: Command, ok: bool, t: Tables, u: Tables) {
    if !ok then u == t
    else
      match c
      case Ban(refused) => if refused then u == t else u == t.(bans := u.bans)
      case Unban => u == t.(bans := u.bans)
      case Whitelist(edit) => if edit.List? then u == t else u == t.(whitelist := u.whitelist)
      case Category(edit) => if edit.List? then u == t else u == t.(blockedCategories := u.blockedCategories)
      case Asn(edit) => if edit.List? then u == t else u == t.(blockedAsns := u.blockedAsns)
      case Region(edit) => if edit.List? then u == t else u == t.(allowedRegions := u.allowedRegions)
      case Query => u == t
      case WatcherBan => u == t.(bans := u.bans)
  }

  /** Whether the dispatcher sends on the channel. A watcher sends whether or not its write succeeded. */
  predicate Notifies(c: Command, ok: bool) {
    match c
    case Ban(_) => ok
    case Unban => ok
    case Asn(edit) => ok && !edit.List?
    case Region(edit) => ok && !edit.List?
    case WatcherBan => true
    case _ => false
  }

  function CommandStep(c: Command, ok: bool, u: Tables): Step {
    if Notifies(c, ok) then Write(u) else WriteUnrendered(u)
  }

  /** Every command is a step of the protocol: one that changes the rule's tables notifies the worker, and one
      that does not notify leaves the rule as it is. */
  lemma CommandsAreSteps(render: Renderer, s: State, c: Command, ok: bool, u: Tables)
    requires Effect(c, ok, s.store, u)
    ensures Next(render, s, CommandStep(c, ok, u)).Some?
    ensures Next(render, s, CommandStep(c, ok, u)).value.store == u
    ensures RenderedStore(render, u) != RenderedStore(render, s.store) ==> Notifies(c, ok)
  {
  }

  // ----- with the rule renderer

  /** The text `RenderExpression` returns for the tables, with the reader's list of bans reversed. */
  ghost function RuleText(maxChars: nat): Renderer {
    (blocked, restricted, regions, bans) =>
      Expression.PrintAll(Expression.Selected(Expression.Budget(maxChars, blocked, restricted, regions),
                                              Expression.Reversed(V4Addresses(bans))))
  }

  /** The recorded rule of a quiescent system is that of the current store, and within the budget. */
  lemma RecordedRule(maxChars: nat, states: seq<State>, steps: seq<Step>, i: nat)
    requires IsRun(RuleText(maxChars), states, steps) && i < |states|
    requires exists t, r :: states[0] == Start(t, r)
    requires Quiescent(states[i]) && states[i].clean
    ensures states[i].recorded == Some(RenderedStore(RuleText(maxChars), states[i].store))
    ensures |states[i].recorded.value| <= maxChars
  {
    SyncedWhenQuiescent(RuleText(maxChars), states, steps, i);
    var t := states[i].store;
    Expression.SelectedFits(Expression.Budget(maxChars, t.blockedAsns, t.restrictedAsns, t.allowedRegions),
                            Expression.Reversed(V4Addresses(t.bans)));
  }

  /** That text is the printed rule of the store's tables. */
  lemma RecordedText(maxChars: nat, t: Tables)
    ensures RenderedStore(RuleText(maxChars), t) == Expression.PrintAll(Pipeline.RuleOf(t, maxChars))
  {
  }

  /** From end to end: whenever the system is quiescent and nothing has failed, a request that the recorded text
      matches is one the pipeline built from the current store stops. */
  lemma RecordedRuleStops(maxChars: nat, states: seq<State>, steps: seq<Step>, i: nat, c: Pipeline.Classifiers,
                          ip: u32, meta: Pipeline.AsnInfo, r: Pipeline.Request, m: Strikes.Flat, now: nat)
    requires IsRun(RuleText(maxChars), states, steps) && i < |states|
    requires exists t, r :: states[0] == Start(t, r)
    requires Quiescent(states[i]) && states[i].clean && Pipeline.PlainRegions(states[i].store)
    requires states[i].recorded.Some? && Pipeline.TextMatches(states[i].recorded.value, ip, meta)
    requires r.ip == Cidr.V4(ip) && r.asnInfo == Some(meta)
    requires !Pipeline.IsLoopbackOrPrivate(r.ip)
    requires r.ip !in Pipeline.PolicyOf(states[i].store, c).whitelistedIps
    ensures var p := Pipeline.PolicyOf(states[i].store, c);
            var a := Pipeline.ActionOf(m, r.ip, Pipeline.RequestPlan(p, r, now));
            a.DropBanned? || a.Ban?
  {
    RecordedRule(maxChars, states, steps, i);
    RecordedText(maxChars, states[i].store);
    Pipeline.MatchedByTextAreStopped(states[i].store, c, maxChars, ip, meta, r, m, now);
  }
}
