/** Reconciling the log watchers with the discovered logs (src/engine/registry.rs). */
module Registry {
  datatype ActiveWatcher<Format> = ActiveWatcher(format: Format, abortHandle: nat)

  /** A discovered log with what its format kind compiles to. */
  datatype DiscoveredLog<Path, Format> = DiscoveredLog(path: Path, compiled: Format)

  datatype Report = Report(added: nat, updated: nat, removed: nat, untouched: nat)

  const NOTHING := Report(0, 0, 0, 0)

  function Paths<P(==), F(==)>(logs: seq<DiscoveredLog<P, F>>): set<P> {
    set log | log in logs :: log.path
  }

  function FormatsOf<P, F>(watchers: map<P, ActiveWatcher<F>>): map<P, F> {
    map p | p in watchers :: watchers[p].format
  }

  function Handles<P, F>(watchers: map<P, ActiveWatcher<F>>): set<nat> {
    set p | p in watchers :: watchers[p].abortHandle
  }

  /** These formats with each listed path set to its last listed format. */
  function Listed<P, F>(formats: map<P, F>, logs: seq<DiscoveredLog<P, F>>): map<P, F> {
    if logs == [] then formats
    else
      var last := logs[|logs| - 1];
      Listed(formats, logs[..|logs| - 1])[last.path := last.compiled]
  }

  /** What reconciling one log against these formats counts as. */
  function Counted<P, F(==)>(report: Report, formats: map<P, F>, log: DiscoveredLog<P, F>): Report {
    if log.path !in formats then report.(added := report.added + 1)
    else if formats[log.path] != log.compiled then report.(updated := report.updated + 1)
    else report.(untouched := report.untouched + 1)
  }

  function Reported<P, F(==)>(report: Report, formats: map<P, F>, logs: seq<DiscoveredLog<P, F>>): Report {
    if logs == [] then report
    else
      var before := logs[..|logs| - 1];
      Counted(Reported(report, formats, before), Listed(formats, before), logs[|logs| - 1])
  }

  /** The report of a whole reconciliation. */
  ghost function ReportOf<P, F>(formats: map<P, F>, logs: seq<DiscoveredLog<P, F>>): Report {
    Reported(NOTHING.(removed := |formats.Keys - Paths(logs)|), Kept(formats, Paths(logs)), logs)
  }

  // ----- the tasks behind the watchers

  /** Whether a watcher's task runs. A task whose log cannot be opened ends at once, and its watcher stays. */
  datatype Status<Format> = Status(format: Format, running: bool)

  function StatusOf<P, F>(watchers: map<P, ActiveWatcher<F>>, live: set<nat>): map<P, Status<F>> {
    map p | p in watchers :: Status(watchers[p].format, watchers[p].abortHandle in live)
  }

  /** What reconciling one log makes of the watchers: a task is started only for a new path or format, and then
      runs if the log opens. */
  function Reconciled<P, F(==)>(m: map<P, Status<F>>, log: DiscoveredLog<P, F>, opens: bool): map<P, Status<F>> {
    if log.path in m && m[log.path].format == log.compiled then m else m[log.path := Status(log.compiled, opens)]
  }

  /** The same for a whole list; `opens(i)` says whether the log of the i-th listing can then be opened. */
  function ReconciledAll<P, F(==)>(m: map<P, Status<F>>, logs: seq<DiscoveredLog<P, F>>, opens: nat -> bool)
    : map<P, Status<F>>
  {
    if logs == [] then m
    else
      var n := |logs| - 1;
      Reconciled(ReconciledAll(m, logs[..n], opens), logs[n], opens(n))
  }

  /** Stored handles were issued, and no two watchers share one. */
  ghost predicate Issued<P, F>(watchers: map<P, ActiveWatcher<F>>, next: nat) {
    && (forall p :: p in watchers ==> watchers[p].abortHandle < next)
    && forall p, q :: p in watchers && q in watchers && p != q
                      ==> watchers[p].abortHandle != watchers[q].abortHandle
  }

  ghost predicate Below(live: set<nat>, next: nat) {
    forall h :: h in live ==> h < next
  }

  lemma HandlesWithout<P, F>(watchers: map<P, ActiveWatcher<F>>, p: P, next: nat)
    requires Issued(watchers, next) && p in watchers
    ensures Handles(watchers - {p}) == Handles(watchers) - {watchers[p].abortHandle}
  {
    var rest := watchers - {p};
    forall h | h in Handles(watchers) - {watchers[p].abortHandle} ensures h in Handles(rest) {
      var q :| q in watchers && watchers[q].abortHandle == h;
      assert q in rest && rest[q] == watchers[q];
    }
  }

  /** Aborting a watcher's task and dropping the watcher leaves every other task and watcher as it was. */
  lemma AbortsOne<P, F>(watchers: map<P, ActiveWatcher<F>>, p: P, live: set<nat>, next: nat)
    requires Issued(watchers, next) && p in watchers
    ensures var rest, now := watchers - {p}, live - {watchers[p].abortHandle};
            && Issued(rest, next)
            && now - Handles(rest) == live - Handles(watchers)
            && StatusOf(rest, now) == StatusOf(watchers, live) - {p}
  {
    HandlesWithout(watchers, p, next);
  }

  lemma HandlesWith<P, F>(watchers: map<P, ActiveWatcher<F>>, p: P, w: ActiveWatcher<F>)
    requires p !in watchers
    ensures Handles(watchers[p := w]) == Handles(watchers) + {w.abortHandle}
  {
    var more := watchers[p := w];
    assert more[p].abortHandle in Handles(more);
    forall h | h in Handles(watchers) ensures h in Handles(more) {
      var q :| q in watchers && watchers[q].abortHandle == h;
      assert more[q].abortHandle == h;
    }
  }

  function LiveWith(live: set<nat>, handle: nat, opens: bool): set<nat> {
    if opens then live + {handle} else live
  }

  /** So does starting a task for a new watcher. */
  lemma StartsOne<P, F>(watchers: map<P, ActiveWatcher<F>>, p: P, format: F, live: set<nat>, next: nat, opens: bool)
    requires Issued(watchers, next) && Below(live, next) && p !in watchers
    ensures var more, now := watchers[p := ActiveWatcher(format, next)], LiveWith(live, next, opens);
            && Issued(more, next + 1) && Below(now, next + 1)
            && now - Handles(more) == live - Handles(watchers)
            && StatusOf(more, now) == StatusOf(watchers, live)[p := Status(format, opens)]
  {
    HandlesWith(watchers, p, ActiveWatcher(format, next));
  }

  lemma RestartsOne<P, F>(watchers: map<P, ActiveWatcher<F>>, p: P, format: F, live: set<nat>, next: nat, opens: bool)
    requires Issued(watchers, next) && Below(live, next) && p in watchers
    ensures var more := watchers[p := ActiveWatcher(format, next)];
            var now := LiveWith(live - {watchers[p].abortHandle}, next, opens);
            && Issued(more, next + 1) && Below(now, next + 1)
            && now - Handles(more) == live - Handles(watchers)
            && StatusOf(more, now) == StatusOf(watchers, live)[p := Status(format, opens)]
  {
    AbortsOne(watchers, p, live, next);
    StartsOne(watchers - {p}, p, format, live - {watchers[p].abortHandle}, next, opens);
    assert (watchers - {p})[p := ActiveWatcher(format, next)] == watchers[p := ActiveWatcher(format, next)];
    assert (StatusOf(watchers, live) - {p})[p := Status(format, opens)]
        == StatusOf(watchers, live)[p := Status(format, opens)];
  }

  /** Half-way through a pruning pass: `todo` is not looked at yet, `gone` is dropped. */
  ghost predicate Pruning<P, F>(was: map<P, ActiveWatcher<F>>, wasLive: set<nat>, now: map<P, ActiveWatcher<F>>,
                                live: set<nat>, next: nat, paths: set<P>, todo: set<P>, gone: set<P>)
  {
    && todo <= was.Keys && gone == was.Keys - paths - todo && now == was - gone
    && Issued(now, next)
    && live - Handles(now) == wasLive - Handles(was)
    && StatusOf(now, live) == StatusOf(was, wasLive) - gone
  }

  lemma PruningDrops<P, F>(was: map<P, ActiveWatcher<F>>, wasLive: set<nat>, now: map<P, ActiveWatcher<F>>,
                           live: set<nat>, next: nat, paths: set<P>, todo: set<P>, gone: set<P>, p: P)
    requires Pruning(was, wasLive, now, live, next, paths, todo, gone) && p in todo && p !in paths
    ensures |gone + {p}| == |gone| + 1 && p in now
    ensures Pruning(was, wasLive, now - {p}, live - {now[p].abortHandle}, next, paths, todo - {p}, gone + {p})
  {
    AbortsOne(now, p, live, next);
    assert now - {p} == was - (gone + {p});
    assert StatusOf(was, wasLive) - gone - {p} == StatusOf(was, wasLive) - (gone + {p});
  }

  lemma PruningKeeps<P, F>(was: map<P, ActiveWatcher<F>>, wasLive: set<nat>, now: map<P, ActiveWatcher<F>>,
                           live: set<nat>, next: nat, paths: set<P>, todo: set<P>, gone: set<P>, p: P)
    requires Pruning(was, wasLive, now, live, next, paths, todo, gone) && p in paths
    ensures Pruning(was, wasLive, now, live, next, paths, todo - {p}, gone)
  {
  }

  lemma PruningStarts<P, F>(was: map<P, ActiveWatcher<F>>, live: set<nat>, next: nat, paths: set<P>)
    requires Issued(was, next)
    ensures Pruning(was, live, was, live, next, paths, was.Keys, {})
  {
    assert was - {} == was && StatusOf(was, live) - {} == StatusOf(was, live);
  }

  /** The task runtime: which tasks run, and the next handle. */
  class Runtime {
    var live: set<nat>
    var next: nat

    ghost predicate Valid()
      reads this
    {
      Below(live, next)
    }

    /** Starts a watcher's task, which runs on only if its log can be opened. */
    method Spawn(opens: bool) returns (handle: nat)
      requires Valid()
      modifies this
      ensures Valid()
      ensures handle == old(next) && next == handle + 1 && live == LiveWith(old(live), handle, opens)
    {
      handle := next;
      if opens {
        live := live + {next};
      }
      next := next + 1;
    }

    /** Aborting a task that has ended does nothing. */
    method Abort(handle: nat)
      requires Valid()
      modifies this
      ensures Valid()
      ensures live == old(live) - {handle} && next == old(next)
    {
      live := live - {handle};
    }
  }

  class NginxWatcherRegistry<Path(==,!new), Format(==,!new)> {
    var watchers: map<Path, ActiveWatcher<Format>>
    const runtime: Runtime

    constructor (runtime: Runtime)
      ensures this.runtime == runtime && watchers == map[]
    {
      this.runtime := runtime;
      watchers := map[];
    }

    /** The tasks of the program that watch none of this registry's logs. */
    ghost function Others(): set<nat>
      reads this, runtime
    {
      runtime.live - Handles(watchers)
    }

    ghost function Statuses(): map<Path, Status<Format>>
      reads this, runtime
    {
      StatusOf(watchers, runtime.live)
    }

    /** Any of the watchers' tasks may have ended. */
    ghost predicate Valid()
      reads this, runtime
    {
      runtime.Valid() && Issued(watchers, runtime.next)
    }

    method AbortAll()
      requires Valid()
      modifies this, runtime
      ensures Valid() && watchers == map[] && runtime.live == old(Others())
    {
      var todo := watchers.Keys;
      ghost var done: set<nat> := {};
      while todo != {}
        invariant todo <= watchers.Keys && Valid() && watchers == old(watchers)
        invariant done == set p | p in watchers && p !in todo :: watchers[p].abortHandle
        invariant runtime.live == old(runtime.live) - done
        decreases todo
      {
        var p :| p in todo;
        runtime.Abort(watchers[p].abortHandle);
        todo, done := todo - {p}, done + {watchers[p].abortHandle};
      }
      assert done == Handles(watchers);
      watchers := map[];
      assert Handles(watchers) == {};
    }

    method Drop(p: Path)
      requires p in watchers && runtime.Valid()
      modifies this, runtime
      ensures watchers == old(watchers) - {p}
      ensures runtime.Valid() && runtime.next == old(runtime.next)
      ensures runtime.live == old(runtime.live) - {old(watchers)[p].abortHandle}
    {
      runtime.Abort(watchers[p].abortHandle);
      watchers := watchers - {p};
    }

    method PruneMissing(discovered: seq<DiscoveredLog<Path, Format>>, report: Report) returns (pruned: Report)
      requires Valid()
      modifies this, runtime
      ensures Valid() && Others() == old(Others())
      ensures watchers == old(watchers) - (old(watchers).Keys - Paths(discovered))
      ensures Statuses() == old(Statuses()) - (old(watchers).Keys - Paths(discovered))
      ensures pruned == report.(removed := report.removed + |old(watchers).Keys - Paths(discovered)|)
    {
      pruned := report;
      var paths := Paths(discovered);
      var todo := watchers.Keys;
      ghost var was, wasLive, next, gone := watchers, runtime.live, runtime.next, {};
      ghost var count: nat := 0;
      PruningStarts(was, wasLive, next, paths);
      while todo != {}
        invariant runtime.Valid() && runtime.next == next
        invariant Pruning(was, wasLive, watchers, runtime.live, next, paths, todo, gone)
        invariant pruned == report.(removed := report.removed + count) && count == |gone|
        decreases todo
      {
        var p :| p in todo;
        if p !in paths {
          PruningDrops(was, wasLive, watchers, runtime.live, next, paths, todo, gone, p);
          Drop(p);
          pruned := pruned.(removed := pruned.removed + 1);
          gone, count := gone + {p}, count + 1;
        } else {
          PruningKeeps(was, wasLive, watchers, runtime.live, next, paths, todo, gone, p);
        }
        todo := todo - {p};
      }
      assert gone == was.Keys - paths;
    }

    method Start(p: Path, format: Format, opens: bool)
      requires Valid() && p !in watchers
      modifies this, runtime
      ensures Valid() && Others() == old(Others())
      ensures watchers == old(watchers)[p := ActiveWatcher(format, old(runtime.next))]
      ensures Statuses() == old(Statuses())[p := Status(format, opens)]
    {
      StartsOne(watchers, p, format, runtime.live, runtime.next, opens);
      var handle := runtime.Spawn(opens);
      watchers := watchers[p := ActiveWatcher(format, handle)];
    }

    method Restart(p: Path, format: Format, opens: bool)
      requires Valid() && p in watchers
      modifies this, runtime
      ensures Valid() && Others() == old(Others())
      ensures watchers == old(watchers)[p := ActiveWatcher(format, old(runtime.next))]
      ensures Statuses() == old(Statuses())[p := Status(format, opens)]
    {
      RestartsOne(watchers, p, format, runtime.live, runtime.next, opens);
      runtime.Abort(watchers[p].abortHandle);
      var handle := runtime.Spawn(opens);
      watchers := watchers[p := ActiveWatcher(format, handle)];
    }

    method ReconcileSingleLog(log: DiscoveredLog<Path, Format>, opens: bool, report: Report)
      returns (counted: Report)
      requires Valid()
      modifies this, runtime
      ensures Valid() && Others() == old(Others())
      ensures Statuses() == Reconciled(old(Statuses()), log, opens)
      ensures watchers == if log.path in old(watchers) && old(watchers)[log.path].format == log.compiled
                          then old(watchers)
                          else old(watchers)[log.path := ActiveWatcher(log.compiled, old(runtime.next))]
      ensures counted == Counted(report, old(FormatsOf(watchers)), log)
    {
      if log.path in watchers {
        if watchers[log.path].format != log.compiled {
          Restart(log.path, log.compiled, opens);
          counted := report.(updated := report.updated + 1);
        } else {
          counted := report.(untouched := report.untouched + 1);
        }
      } else {
        Start(log.path, log.compiled, opens);
        counted := report.(added := report.added + 1);
      }
    }

    method Reconcile(discovered: seq<DiscoveredLog<Path, Format>>, opens: nat -> bool) returns (report: Report)
      requires Valid()
      modifies this, runtime
      ensures Valid() && Others() == old(Others())
      ensures Statuses() == ReconciledAll(Kept(old(Statuses()), Paths(discovered)), discovered, opens)
      ensures FormatsOf(watchers) == Listed(Kept(old(FormatsOf(watchers)), Paths(discovered)), discovered)
      ensures forall p :: p in old(watchers) && p in Paths(discovered)
                          && OnlyFormat(discovered, p, old(watchers)[p].format)
                          ==> p in watchers && watchers[p] == old(watchers)[p]
      ensures report == ReportOf(old(FormatsOf(watchers)), discovered)
    {
      ghost var was, wasLive := watchers, runtime.live;
      var start := PruneMissing(discovered, NOTHING);
      ghost var pruned, prunedLive := watchers, runtime.live;
      report := ReconcileEach(discovered, opens, start);
      PruneThenEach(was, wasLive, pruned, prunedLive, start, watchers, runtime.live, report, discovered, opens);
    }

    /** The loop over the discovered logs. */
    method ReconcileEach(discovered: seq<DiscoveredLog<Path, Format>>, opens: nat -> bool, start: Report)
      returns (report: Report)
      requires Valid()
      modifies this, runtime
      ensures Valid() && Others() == old(Others())
      ensures Underway(old(watchers), old(Statuses()), start, watchers, runtime.live, report, discovered, opens,
                       |discovered|)
    {
      report := start;
      ghost var was, statuses, others := watchers, Statuses(), Others();
      UnderwayStarts(was, statuses, start, runtime.live, discovered, opens);
      for i := 0 to |discovered|
        invariant Valid() && Others() == others
        invariant Underway(was, statuses, start, watchers, runtime.live, report, discovered, opens, i)
      {
        ghost var before, live, counted := watchers, runtime.live, report;
        ghost var handle := runtime.next;
        report := ReconcileSingleLog(discovered[i], opens(i), report);
        UnderwayGoesOn(was, statuses, start, before, live, counted, watchers, runtime.live, report,
                       discovered, opens, i, handle);
      }
    }
  }

  /** What the loop has achieved after `i` listings. */
  ghost predicate Underway<P(!new), F(!new)>(
    was: map<P, ActiveWatcher<F>>, statuses: map<P, Status<F>>, start: Report,
    now: map<P, ActiveWatcher<F>>, live: set<nat>, report: Report,
    logs: seq<DiscoveredLog<P, F>>, opens: nat -> bool, i: nat)
  {
    && i <= |logs|
    && StatusOf(now, live) == ReconciledAll(statuses, logs[..i], opens)
    && FormatsOf(now) == Listed(FormatsOf(was), logs[..i])
    && KeptTasks(was, now, logs[..i])
    && report == Reported(start, FormatsOf(was), logs[..i])
  }

  lemma UnderwayStarts<P(!new), F(!new)>(was: map<P, ActiveWatcher<F>>, statuses: map<P, Status<F>>, start: Report,
                                         live: set<nat>, logs: seq<DiscoveredLog<P, F>>, opens: nat -> bool)
    requires statuses == StatusOf(was, live)
    ensures Underway(was, statuses, start, was, live, start, logs, opens, 0)
  {
  }

  lemma UnderwayEnds<P(!new), F(!new)>(
    was: map<P, ActiveWatcher<F>>, statuses: map<P, Status<F>>, start: Report,
    now: map<P, ActiveWatcher<F>>, live: set<nat>, report: Report,
    logs: seq<DiscoveredLog<P, F>>, opens: nat -> bool)
    requires Underway(was, statuses, start, now, live, report, logs, opens, |logs|)
    ensures StatusOf(now, live) == ReconciledAll(statuses, logs, opens)
    ensures FormatsOf(now) == Listed(FormatsOf(was), logs) && KeptTasks(was, now, logs)
    ensures report == Reported(start, FormatsOf(was), logs)
  {
    assert logs[..|logs|] == logs;
  }

  lemma UnderwayGoesOn<P(!new), F(!new)>(
    was: map<P, ActiveWatcher<F>>, statuses: map<P, Status<F>>, start: Report,
    before: map<P, ActiveWatcher<F>>, live: set<nat>, report: Report,
    now: map<P, ActiveWatcher<F>>, nowLive: set<nat>, counted: Report,
    logs: seq<DiscoveredLog<P, F>>, opens: nat -> bool, i: nat, handle: nat)
    requires i < |logs| && Underway(was, statuses, start, before, live, report, logs, opens, i)
    requires now == if logs[i].path in before && before[logs[i].path].format == logs[i].compiled then before
                    else before[logs[i].path := ActiveWatcher(logs[i].compiled, handle)]
    requires StatusOf(now, nowLive) == Reconciled(StatusOf(before, live), logs[i], opens(i))
    requires counted == Counted(report, FormatsOf(before), logs[i])
    ensures Underway(was, statuses, start, now, nowLive, counted, logs, opens, i + 1)
  {
    NextLog(start, FormatsOf(was), logs, i);
    NextStatus(statuses, logs, opens, i);
    OneFormatSet(before, now, logs[i], handle);
    KeepsTasks(was, before, now, logs, i);
  }

  lemma OneFormatSet<P, F>(before: map<P, ActiveWatcher<F>>, now: map<P, ActiveWatcher<F>>, log: DiscoveredLog<P, F>,
                           handle: nat)
    requires now == if log.path in before && before[log.path].format == log.compiled then before
                    else before[log.path := ActiveWatcher(log.compiled, handle)]
    ensures FormatsOf(now) == FormatsOf(before)[log.path := log.compiled]
    ensures forall p :: p in before && (p != log.path || before[p].format == log.compiled)
                        ==> p in now && now[p] == before[p]
  {
  }

  lemma KeptIsWithout<P, V>(m: map<P, V>, paths: set<P>)
    ensures m - (m.Keys - paths) == Kept(m, paths)
  {
  }

  lemma NextStatus<P, F>(m: map<P, Status<F>>, logs: seq<DiscoveredLog<P, F>>, opens: nat -> bool, i: nat)
    requires i < |logs|
    ensures ReconciledAll(m, logs[..i + 1], opens)
         == Reconciled(ReconciledAll(m, logs[..i], opens), logs[i], opens(i))
  {
    assert logs[..i + 1][..i] == logs[..i];
  }

  lemma AfterPruning<P, F>(was: map<P, ActiveWatcher<F>>, now: map<P, ActiveWatcher<F>>, paths: set<P>)
    requires now == was - (was.Keys - paths)
    ensures FormatsOf(now) == Kept(FormatsOf(was), paths) && FormatsOf(was).Keys == was.Keys
    ensures forall p :: p in was && p in paths ==> p in now && now[p] == was[p]
  {
  }

  lemma PruneThenEach<P(!new), F(!new)>(
    was: map<P, ActiveWatcher<F>>, wasLive: set<nat>, pruned: map<P, ActiveWatcher<F>>, prunedLive: set<nat>,
    start: Report, now: map<P, ActiveWatcher<F>>, live: set<nat>, report: Report,
    logs: seq<DiscoveredLog<P, F>>, opens: nat -> bool)
    requires pruned == was - (was.Keys - Paths(logs))
    requires StatusOf(pruned, prunedLive) == StatusOf(was, wasLive) - (was.Keys - Paths(logs))
    requires start == NOTHING.(removed := |was.Keys - Paths(logs)|)
    requires Underway(pruned, StatusOf(pruned, prunedLive), start, now, live, report, logs, opens, |logs|)
    ensures StatusOf(now, live) == ReconciledAll(Kept(StatusOf(was, wasLive), Paths(logs)), logs, opens)
    ensures FormatsOf(now) == Listed(Kept(FormatsOf(was), Paths(logs)), logs)
    ensures forall p :: p in was && p in Paths(logs) && OnlyFormat(logs, p, was[p].format)
                        ==> p in now && now[p] == was[p]
    ensures report == ReportOf(FormatsOf(was), logs)
  {
    AfterPruning(was, pruned, Paths(logs));
    KeptIsWithout(StatusOf(was, wasLive), Paths(logs));
    UnderwayEnds(pruned, StatusOf(pruned, prunedLive), start, now, live, report, logs, opens);
  }

  function Kept<P, F>(formats: map<P, F>, paths: set<P>): map<P, F> {
    map p | p in formats && p in paths :: formats[p]
  }

  /** Every listing of this path has this format. */
  ghost predicate OnlyFormat<P, F>(logs: seq<DiscoveredLog<P, F>>, p: P, format: F) {
    forall i :: 0 <= i < |logs| && logs[i].path == p ==> logs[i].compiled == format
  }

  /** The watchers whose format never changed still have the same tasks. */
  ghost predicate KeptTasks<P(!new), F(!new)>(was: map<P, ActiveWatcher<F>>, now: map<P, ActiveWatcher<F>>,
                                              logs: seq<DiscoveredLog<P, F>>)
  {
    forall p :: p in was && OnlyFormat(logs, p, was[p].format) ==> p in now && now[p] == was[p]
  }

  lemma KeepsTasks<P(!new), F(!new)>(was: map<P, ActiveWatcher<F>>, before: map<P, ActiveWatcher<F>>,
                                     now: map<P, ActiveWatcher<F>>, logs: seq<DiscoveredLog<P, F>>, i: nat)
    requires i < |logs| && KeptTasks(was, before, logs[..i])
    requires forall p :: p in before && (p != logs[i].path || before[p].format == logs[i].compiled)
                         ==> p in now && now[p] == before[p]
    ensures KeptTasks(was, now, logs[..i + 1])
  {
    forall p | p in was && OnlyFormat(logs[..i + 1], p, was[p].format) ensures p in now && now[p] == was[p] {
      assert logs[..i + 1][i] == logs[i];
      forall j | 0 <= j < i && logs[..i][j].path == p ensures logs[..i][j].compiled == was[p].format {
        assert logs[..i + 1][j] == logs[..i][j];
      }
    }
  }

  lemma NextLog<P, F>(report: Report, formats: map<P, F>, logs: seq<DiscoveredLog<P, F>>, i: nat)
    requires i < |logs|
    ensures Listed(formats, logs[..i + 1]) == Listed(formats, logs[..i])[logs[i].path := logs[i].compiled]
    ensures Reported(report, formats, logs[..i + 1])
         == Counted(Reported(report, formats, logs[..i]), Listed(formats, logs[..i]), logs[i])
  {
    assert logs[..i + 1][..i] == logs[..i];
  }

  // ----- what a reconciliation achieves

  lemma PathsExtend<P, F>(logs: seq<DiscoveredLog<P, F>>)
    requires logs != []
    ensures Paths(logs) == Paths(logs[..|logs| - 1]) + {logs[|logs| - 1].path}
  {
    assert logs == logs[..|logs| - 1] + [logs[|logs| - 1]];
  }

  lemma {:induction false} ListedKeys<P, F>(formats: map<P, F>, logs: seq<DiscoveredLog<P, F>>)
    ensures Listed(formats, logs).Keys == formats.Keys + Paths(logs)
  {
    if logs != [] {
      ListedKeys(formats, logs[..|logs| - 1]);
      PathsExtend(logs);
    }
  }

  ghost predicate LastListed<P, F>(logs: seq<DiscoveredLog<P, F>>, i: nat)
    requires i < |logs|
  {
    forall j :: i < j < |logs| ==> logs[j].path != logs[i].path
  }

  /** Every listed path has its last listed format. */
  lemma {:induction false} LastListedWins<P, F>(formats: map<P, F>, logs: seq<DiscoveredLog<P, F>>, i: nat)
    requires i < |logs| && LastListed(logs, i)
    ensures logs[i].path in Listed(formats, logs) && Listed(formats, logs)[logs[i].path] == logs[i].compiled
  {
    var before := logs[..|logs| - 1];
    if i < |before| {
      assert before[i] == logs[i] && LastListed(before, i);
      LastListedWins(formats, before, i);
    }
  }

  /** Nothing but the discovered paths is watched afterwards, each with its last listed format. */
  lemma WatchesExactlyTheDiscovered<P, F>(formats: map<P, F>, logs: seq<DiscoveredLog<P, F>>)
    ensures var after := Listed(Kept(formats, Paths(logs)), logs);
            && after.Keys == Paths(logs)
            && forall i :: 0 <= i < |logs| && LastListed(logs, i)
                           ==> logs[i].path in after && after[logs[i].path] == logs[i].compiled
  {
    var kept := Kept(formats, Paths(logs));
    ListedKeys(kept, logs);
    KeptKeys(formats, Paths(logs));
    forall i | 0 <= i < |logs| && LastListed(logs, i)
      ensures logs[i].path in Listed(kept, logs) && Listed(kept, logs)[logs[i].path] == logs[i].compiled
    {
      LastListedWins(kept, logs, i);
    }
  }

  lemma {:induction false} EveryListingCounted<P, F>(start: Report, formats: map<P, F>, logs: seq<DiscoveredLog<P, F>>)
    ensures var r := Reported(start, formats, logs);
            && r.added + r.updated + r.untouched == start.added + start.updated + start.untouched + |logs|
            && r.removed == start.removed
            && r.added >= start.added && r.updated >= start.updated
  {
    if logs != [] {
      EveryListingCounted(start, formats, logs[..|logs| - 1]);
    }
  }

  lemma ReportedStep<P, F>(start: Report, formats: map<P, F>, logs: seq<DiscoveredLog<P, F>>)
    requires logs != []
    ensures var before := logs[..|logs| - 1];
            Reported(start, formats, logs).added == Reported(start, formats, before).added
              + if logs[|logs| - 1].path in formats.Keys + Paths(before) then 0 else 1
  {
    ListedKeys(formats, logs[..|logs| - 1]);
  }

  lemma AddOne<T>(a: set<T>, b: set<T>, x: T)
    ensures x in a + b ==> |(a + {x}) - b| == |a - b|
    ensures x !in a + b ==> |(a + {x}) - b| == |a - b| + 1
  {
    if x in a + b {
      assert (a + {x}) - b == a - b;
    } else {
      assert (a + {x}) - b == (a - b) + {x};
    }
  }

  /** The paths that were not watched are the ones added. */
  lemma {:induction false} AddedAreNew<P, F>(start: Report, formats: map<P, F>, logs: seq<DiscoveredLog<P, F>>)
    ensures Reported(start, formats, logs).added == start.added + |Paths(logs) - formats.Keys|
  {
    if logs == [] {
      assert Paths(logs) - formats.Keys == {};
    } else {
      var before, last := logs[..|logs| - 1], logs[|logs| - 1];
      AddedAreNew(start, formats, before);
      ReportedStep(start, formats, logs);
      PathsExtend(logs);
      AddOne(Paths(before), formats.Keys, last.path);
    }
  }

  /** The report balances: every listing is counted once, added paths are the new ones, removed paths the
      missing ones, and the sizes before and after differ by them. */
  lemma ReportBalances<P, F>(formats: map<P, F>, logs: seq<DiscoveredLog<P, F>>)
    ensures var r := ReportOf(formats, logs);
            && r.added + r.updated + r.untouched == |logs|
            && r.added == |Paths(logs) - formats.Keys|
            && r.removed == |formats.Keys - Paths(logs)|
            && |Listed(Kept(formats, Paths(logs)), logs).Keys| == |formats.Keys| - r.removed + r.added
  {
    var kept := Kept(formats, Paths(logs));
    var start := NOTHING.(removed := |formats.Keys - Paths(logs)|);
    EveryListingCounted(start, kept, logs);
    AddedAreNew(start, kept, logs);
    ListedKeys(kept, logs);
    KeptKeys(formats, Paths(logs));
    Balance(formats.Keys, Paths(logs), kept.Keys);
  }

  lemma KeptKeys<P, F>(formats: map<P, F>, paths: set<P>)
    ensures Kept(formats, paths).Keys == formats.Keys * paths
  {
  }

  lemma Balance<T>(was: set<T>, now: set<T>, both: set<T>)
    requires both == was * now
    ensures |now - both| == |now - was|
    ensures |both + now| == |was| - |was - now| + |now - was|
  {
    assert now - both == now - was && both + now == now;
    assert was == (was - now) + both && now == (now - was) + both;
  }

  // ----- reconciling twice

  /** No path is listed with two formats. */
  predicate SingleFormats<P(==), F(==)>(logs: seq<DiscoveredLog<P, F>>) {
    forall i, j :: 0 <= i < j < |logs| && logs[i].path == logs[j].path ==> logs[i].compiled == logs[j].compiled
  }

  /** These formats are those of every listing. */
  ghost predicate Agrees<P, F>(formats: map<P, F>, logs: seq<DiscoveredLog<P, F>>) {
    forall i :: 0 <= i < |logs| ==> logs[i].path in formats && formats[logs[i].path] == logs[i].compiled
  }

  lemma AgreesExtends<P, F>(formats: map<P, F>, logs: seq<DiscoveredLog<P, F>>)
    requires logs != []
    ensures var last := logs[|logs| - 1];
            (Agrees(formats, logs)
             <==> Agrees(formats, logs[..|logs| - 1]) && last.path in formats && formats[last.path] == last.compiled)
  {
    assert logs == logs[..|logs| - 1] + [logs[|logs| - 1]];
  }

  /** A report finds nothing to do exactly when the formats agree with every listing. */
  lemma {:induction false} NothingToDo<P, F>(formats: map<P, F>, logs: seq<DiscoveredLog<P, F>>)
    ensures Reported(NOTHING, formats, logs) == Report(0, 0, 0, |logs|) <==> Agrees(formats, logs)
    ensures Agrees(formats, logs) ==> Listed(formats, logs) == formats
  {
    if logs != [] {
      var before := logs[..|logs| - 1];
      NothingToDo(formats, before);
      EveryListingCounted(NOTHING, formats, before);
      AgreesExtends(formats, logs);
    }
  }

  lemma {:induction false} LastListing<P, F>(logs: seq<DiscoveredLog<P, F>>, i: nat) returns (last: nat)
    requires i < |logs|
    ensures i <= last < |logs| && logs[last].path == logs[i].path
    ensures LastListed(logs, last)
    decreases |logs| - i
  {
    if j :| i < j < |logs| && logs[j].path == logs[i].path {
      last := LastListing(logs, j);
    } else {
      last := i;
    }
  }

  /** A second reconciliation of a list reports every listing unchanged exactly when no path is listed with two
      formats, and then keeps every format. */
  lemma SecondReconciliation<P, F>(formats: map<P, F>, logs: seq<DiscoveredLog<P, F>>)
    ensures var after := Listed(Kept(formats, Paths(logs)), logs);
            && (ReportOf(after, logs) == Report(0, 0, 0, |logs|) <==> SingleFormats(logs))
            && (SingleFormats(logs) ==> Listed(Kept(after, Paths(logs)), logs) == after)
  {
    var after := Listed(Kept(formats, Paths(logs)), logs);
    WatchesExactlyTheDiscovered(formats, logs);
    assert Kept(after, Paths(logs)) == after && after.Keys - Paths(logs) == {};
    NothingToDo(after, logs);
    forall i | 0 <= i < |logs| ensures logs[i].path in after {
      assert logs[i] in logs;
    }
    if SingleFormats(logs) {
      forall i | 0 <= i < |logs| ensures after[logs[i].path] == logs[i].compiled {
        var last := LastListing(logs, i);
      }
    }
  }

  // ----- which watchers' tasks run

  function FormatsIn<P, F>(m: map<P, Status<F>>): map<P, F> {
    map p | p in m :: m[p].format
  }

  lemma {:induction false} FormatsReconciled<P, F>(m: map<P, Status<F>>, logs: seq<DiscoveredLog<P, F>>,
                                                   opens: nat -> bool)
    ensures FormatsIn(ReconciledAll(m, logs, opens)) == Listed(FormatsIn(m), logs)
  {
    if logs != [] {
      FormatsReconciled(m, logs[..|logs| - 1], opens);
    }
  }

  /** The i-th listing starts a task: its path was not watched, or with another format. */
  ghost predicate Starts<P, F>(formats: map<P, F>, logs: seq<DiscoveredLog<P, F>>, i: nat)
    requires i < |logs|
  {
    var before := Listed(formats, logs[..i]);
    !(logs[i].path in before && before[logs[i].path] == logs[i].compiled)
  }

  /** No listing of this path from index `from` on starts a task. */
  ghost predicate NoStart<P, F>(formats: map<P, F>, logs: seq<DiscoveredLog<P, F>>, p: P, from: nat) {
    forall i :: from <= i < |logs| && logs[i].path == p ==> !Starts(formats, logs, i)
  }

  lemma NoStartBefore<P, F>(formats: map<P, F>, logs: seq<DiscoveredLog<P, F>>, p: P, from: nat)
    requires logs != [] && NoStart(formats, logs, p, from)
    ensures NoStart(formats, logs[..|logs| - 1], p, from)
  {
    var init := logs[..|logs| - 1];
    forall i | from <= i < |init| && init[i].path == p ensures !Starts(formats, init, i) {
      assert init[..i] == logs[..i] && init[i] == logs[i];
    }
  }

  lemma OneListing<P, F>(m: map<P, Status<F>>, logs: seq<DiscoveredLog<P, F>>, opens: nat -> bool)
    requires logs != []
    ensures var n := |logs| - 1;
            var before, p := ReconciledAll(m, logs[..n], opens), logs[n].path;
            ReconciledAll(m, logs, opens)
            == if Starts(FormatsIn(m), logs, n) then before[p := Status(logs[n].compiled, opens(n))] else before
  {
    FormatsReconciled(m, logs[..|logs| - 1], opens);
  }

  /** A watcher for which no listing starts a task keeps its format, and its task runs exactly if it ran. */
  lemma {:induction false} KeepsStatus<P, F>(m: map<P, Status<F>>, logs: seq<DiscoveredLog<P, F>>,
                                             opens: nat -> bool, p: P)
    requires p in m && NoStart(FormatsIn(m), logs, p, 0)
    ensures p in ReconciledAll(m, logs, opens) && ReconciledAll(m, logs, opens)[p] == m[p]
  {
    if logs != [] {
      NoStartBefore(FormatsIn(m), logs, p, 0);
      KeepsStatus(m, logs[..|logs| - 1], opens, p);
      OneListing(m, logs, opens);
    }
  }

  /** Otherwise the last listing that starts one decides: the task runs exactly if the log could then be
      opened. */
  lemma {:induction false} LastStartDecides<P, F>(m: map<P, Status<F>>, logs: seq<DiscoveredLog<P, F>>,
                                                  opens: nat -> bool, i: nat)
    requires i < |logs| && Starts(FormatsIn(m), logs, i) && NoStart(FormatsIn(m), logs, logs[i].path, i + 1)
    ensures logs[i].path in ReconciledAll(m, logs, opens)
    ensures ReconciledAll(m, logs, opens)[logs[i].path].running <==> opens(i)
  {
    var n := |logs| - 1;
    OneListing(m, logs, opens);
    if i < n {
      var init := logs[..n];
      assert init[..i] == logs[..i] && init[i] == logs[i];
      NoStartBefore(FormatsIn(m), logs, logs[i].path, i + 1);
      LastStartDecides(m, init, opens, i);
      assert logs[n].path == logs[i].path ==> !Starts(FormatsIn(m), logs, n);
    }
  }

  // ----- over many reconciliations

  datatype Round<P, F> = Round(logs: seq<DiscoveredLog<P, F>>, opens: nat -> bool)

  ghost function AfterRounds<P, F>(m: map<P, Status<F>>, rounds: seq<Round<P, F>>): map<P, Status<F>> {
    if rounds == [] then m
    else
      var last := rounds[|rounds| - 1];
      ReconciledAll(Kept(AfterRounds(m, rounds[..|rounds| - 1]), Paths(last.logs)), last.logs, last.opens)
  }

  lemma {:induction false} OnlyFormatNoStart<P, F>(formats: map<P, F>, logs: seq<DiscoveredLog<P, F>>, p: P, n: nat)
    requires n <= |logs| && p in formats && OnlyFormat(logs, p, formats[p])
    ensures p in Listed(formats, logs[..n]) && Listed(formats, logs[..n])[p] == formats[p]
  {
    if n > 0 {
      OnlyFormatNoStart(formats, logs, p, n - 1);
      assert logs[..n][..n - 1] == logs[..n - 1] && logs[..n][n - 1] == logs[n - 1];
    }
  }

  lemma RoundKeepsStatus<P, F>(m: map<P, Status<F>>, round: Round<P, F>, p: P)
    requires p in m && p in Paths(round.logs) && OnlyFormat(round.logs, p, m[p].format)
    ensures var after := ReconciledAll(Kept(m, Paths(round.logs)), round.logs, round.opens);
            p in after && after[p] == m[p]
  {
    var kept := Kept(m, Paths(round.logs));
    forall i | 0 <= i < |round.logs| && round.logs[i].path == p ensures !Starts(FormatsIn(kept), round.logs, i) {
      OnlyFormatNoStart(FormatsIn(kept), round.logs, p, i);
    }
    KeepsStatus(kept, round.logs, round.opens, p);
  }

  /** A path that stays listed with one format keeps for good the task it was given, or the lack of one: a log
      that could not be opened when its watcher was added is never watched, even once it exists. */
  lemma {:induction false} StatusIsForGood<P, F>(m: map<P, Status<F>>, rounds: seq<Round<P, F>>, p: P)
    requires p in m
    requires forall k :: 0 <= k < |rounds| ==>
               p in Paths(rounds[k].logs) && OnlyFormat(rounds[k].logs, p, m[p].format)
    ensures p in AfterRounds(m, rounds) && AfterRounds(m, rounds)[p] == m[p]
  {
    if rounds != [] {
      var init := rounds[..|rounds| - 1];
      StatusIsForGood(m, init, p);
      RoundKeepsStatus(AfterRounds(m, init), rounds[|rounds| - 1], p);
    }
  }

  lemma ReconciledOne<P, F>(m: map<P, Status<F>>, log: DiscoveredLog<P, F>, opens: nat -> bool)
    ensures ReconciledAll(m, [log], opens) == Reconciled(m, log, opens(0))
  {
    assert [log][..0] == [];
  }

  lemma PathsOfOne<P, F>(log: DiscoveredLog<P, F>)
    ensures Paths([log]) == {log.path}
  {
    assert log in [log];
  }

  lemma ReportOfOne<P, F>(formats: map<P, F>, log: DiscoveredLog<P, F>)
    requires formats.Keys <= {log.path}
    ensures ReportOf(formats, [log]) == Counted(NOTHING, formats, log)
  {
    PathsOfOne(log);
    assert Kept(formats, {log.path}) == formats && formats.Keys - {log.path} == {};
    assert [log][..0] == [];
    assert Reported(NOTHING, formats, []) == NOTHING && Listed(formats, []) == formats;
  }

  /** Such a log: missing when it is first listed, present the second time. It is reported added, then
      unchanged, and no task reads it. */
  lemma MissingLogStaysUnwatched<P, F>(log: DiscoveredLog<P, F>)
    ensures var first := ReconciledAll(Kept(map[], Paths([log])), [log], _ => false);
            var second := ReconciledAll(Kept(first, Paths([log])), [log], _ => true);
            && first == second == map[log.path := Status(log.compiled, false)]
            && ReportOf(map[], [log]) == Report(1, 0, 0, 0)
            && ReportOf(FormatsIn(first), [log]) == Report(0, 0, 0, 1)
  {
    var none: map<P, Status<F>>, noFormats: map<P, F> := map[], map[];
    var first := map[log.path := Status(log.compiled, false)];
    PathsOfOne(log);
    assert Kept(none, {log.path}) == none && Kept(first, {log.path}) == first;
    ReconciledOne(none, log, _ => false);
    ReconciledOne(first, log, _ => true);
    ReportOfOne(noFormats, log);
    ReportOfOne(FormatsIn(first), log);
  }
}
