/** The crawl of an include graph (src/discovery/crawler.rs). */
module Crawl {
  import opened Wrappers

  datatype Path = Path(text: string)

  /** What the crawl does with one directive. */
  datatype Statement =
    | Include(pattern: string)
    | LogFormat(name: string, body: string)
    | AccessLog(path: Path, format: Option<string>)
    | ErrorLog(path: Path)
    | Other

  predicate IsAbsolute(pattern: string) {
    pattern != "" && pattern[0] == '/'
  }

  /** A configuration on disk. What a file says depends on the file alone; what a relative pattern in it stands
      for may depend on the directory of the path it is read by. `expand` lists the existing files a pattern
      matches below a directory, and `parent` is the directory part of a path. */
  datatype Tree = Tree(root: Path, rootExists: bool, files: set<Path>, canonical: Path -> Path,
                       content: Path -> Option<seq<Statement>>, parent: Path -> Option<Path>, defaultBase: Path,
                       expand: (Path, string) -> seq<Path>)
  {
    function Contents(p: Path): seq<Statement> {
      match content(canonical(p))
      case Some(statements) => statements
      case None => []
    }

    /** The directory of the root file. */
    function Base(): Path {
      match parent(root)
      case Some(dir) => dir
      case None => defaultBase
    }

    function Directory(p: Path): Path {
      match parent(p)
      case Some(dir) => dir
      case None => Base()
    }

    /** A pattern is looked up below the base directory; a relative one that matches nothing there, below the
        directory of the including path. */
    function ResolveIncludePattern(dir: Path, pattern: string): seq<Path> {
      var files := expand(Base(), pattern);
      if files == [] && Base() != dir && !IsAbsolute(pattern) then expand(dir, pattern) else files
    }

    function Includes(p: Path): seq<Path> {
      IncludedBy(this, Directory(p), Contents(p))
    }

    function Roots(): seq<Path> {
      if rootExists then [root] else []
    }

    /** The canonical files are finitely many; the paths that lead to them need not be. */
    ghost predicate Valid() {
      && (rootExists ==> canonical(root) in files)
      && forall p, q :: q in Includes(p) ==> canonical(q) in files
    }
  }

  function Ids(t: Tree, paths: seq<Path>): set<Path> {
    set p | p in paths :: t.canonical(p)
  }

  /** The files these statements include, read in a given directory. */
  function IncludedBy(t: Tree, dir: Path, statements: seq<Statement>): seq<Path> {
    if statements == [] then []
    else
      var last := statements[|statements| - 1];
      IncludedBy(t, dir, statements[..|statements| - 1])
      + if last.Include? then t.ResolveIncludePattern(dir, last.pattern) else []
  }

  /** Later definitions of a format replace earlier ones; `combined` is the predefined format. */
  function FormatsOf(statements: seq<Statement>, combined: string): map<string, string> {
    if statements == [] then map["combined" := combined]
    else
      var last := statements[|statements| - 1];
      var before := FormatsOf(statements[..|statements| - 1], combined);
      if last.LogFormat? then before[last.name := last.body] else before
  }

  function AccessLogsOf(statements: seq<Statement>): seq<(Path, Option<string>)> {
    if statements == [] then []
    else
      var last := statements[|statements| - 1];
      AccessLogsOf(statements[..|statements| - 1]) + if last.AccessLog? then [(last.path, last.format)] else []
  }

  function ErrorLogsOf(statements: seq<Statement>): seq<Path> {
    if statements == [] then []
    else
      var last := statements[|statements| - 1];
      var before := ErrorLogsOf(statements[..|statements| - 1]);
      if last.ErrorLog? && last.path !in before then before + [last.path] else before
  }

  /** The statements of these files, file by file. */
  function StatementsOf(t: Tree, order: seq<Path>): seq<Statement> {
    if order == [] then [] else StatementsOf(t, order[..|order| - 1]) + t.Contents(order[|order| - 1])
  }

  /** Everything the crawl queues while it processes these files. */
  function Enqueued(t: Tree, order: seq<Path>): seq<Path> {
    if order == [] then t.Roots() else Enqueued(t, order[..|order| - 1]) + t.Includes(order[|order| - 1])
  }

  /** The first path of each file. */
  function Firsts(t: Tree, paths: seq<Path>): seq<Path> {
    if paths == [] then []
    else
      var before, last := Firsts(t, paths[..|paths| - 1]), paths[|paths| - 1];
      if t.canonical(last) in Ids(t, before) then before else before + [last]
  }

  /** The files found once these have been processed. */
  function Known(t: Tree, order: seq<Path>): seq<Path> {
    Firsts(t, Enqueued(t, order))
  }

  /** Equality, path by path. */
  ghost predicate SamePaths(a: seq<Path>, b: seq<Path>) {
    |a| == |b| && forall i :: 0 <= i < |a| ==> a[i] == b[i]
  }

  /** Every file is processed by the first path queued for it, and queued before it is processed. */
  ghost predicate IsCrawlOrder(t: Tree, order: seq<Path>) {
    SamePaths(Known(t, order), order) && QueuedFirst(t, order)
  }

  ghost predicate QueuedFirst(t: Tree, order: seq<Path>) {
    forall k :: 0 <= k < |order| ==> order[k] in Enqueued(t, order[..k])
  }

  /** Where the queue loop stands after taking these paths off its queue. */
  ghost predicate Progress(t: Tree, popped: seq<Path>, queue: seq<Path>, order: seq<Path>) {
    && popped + queue == Enqueued(t, order)
    && SamePaths(Firsts(t, popped), order)
    && QueuedFirst(t, order)
  }

  // ----- the queue loop

  /** What holds between two turns. */
  ghost predicate Between(t: Tree, popped: seq<Path>, queue: seq<Path>, order: seq<Path>, visited: set<Path>) {
    Progress(t, popped, queue, order) && visited == Ids(t, order) && visited <= t.files && OnDisk(t, queue)
  }

  class CrawlerState {
    const combined: string
    var queue: seq<Path>
    var formats: map<string, string>
    var rawAccessLogs: seq<(Path, Option<string>)>
    var errorLogs: seq<Path>

    constructor (start: seq<Path>, combined: string)
      ensures queue == start && this.combined == combined && Gathered([])
    {
      this.combined := combined;
      queue := start;
      formats := map["combined" := combined];
      rawAccessLogs, errorLogs := [], [];
    }

    ghost predicate Gathered(statements: seq<Statement>)
      reads this
    {
      && formats == FormatsOf(statements, combined)
      && rawAccessLogs == AccessLogsOf(statements)
      && errorLogs == ErrorLogsOf(statements)
    }

    method ProcessDirective(t: Tree, currentDir: Path, directive: Statement, ghost before: seq<Statement>)
      requires Gathered(before)
      modifies this
      ensures Gathered(before + [directive])
      ensures queue == old(queue) + IncludedBy(t, currentDir, [directive])
    {
      assert (before + [directive])[..|before|] == before;
      assert [directive][..0] == [];
      match directive {
        case LogFormat(name, body) => formats := formats[name := body];
        case Include(pattern) => queue := queue + t.ResolveIncludePattern(currentDir, pattern);
        case AccessLog(path, format) => rawAccessLogs := rawAccessLogs + [(path, format)];
        case ErrorLog(path) =>
          if path !in errorLogs {
            errorLogs := errorLogs + [path];
          }
        case Other =>
      }
    }

    method ProcessFile(t: Tree, currentDir: Path, directives: seq<Statement>, ghost before: seq<Statement>)
      requires Gathered(before)
      modifies this
      ensures Gathered(before + directives)
      ensures queue == old(queue) + IncludedBy(t, currentDir, directives)
    {
      assert before + directives[..0] == before;
      for i := 0 to |directives|
        invariant Gathered(before + directives[..i])
        invariant queue == old(queue) + IncludedBy(t, currentDir, directives[..i])
      {
        ProcessDirective(t, currentDir, directives[i], before + directives[..i]);
        NextStatement(t, currentDir, before, directives, i);
      }
      assert directives[..|directives|] == directives;
    }

    method ReadFile(t: Tree, path: Path, ghost before: seq<Statement>)
      requires Gathered(before)
      modifies this
      ensures Gathered(before + t.Contents(path))
      ensures queue == old(queue) + t.Includes(path)
    {
      match t.content(t.canonical(path)) {
        case Some(directives) =>
          ProcessFile(t, t.Directory(path), directives, before);
        case None =>
          assert before + [] == before && queue + [] == queue;
      }
    }
  }

  /** One turn of the queue loop. */
  method NextFile(t: Tree, state: CrawlerState, visited: set<Path>, ghost popped: seq<Path>, ghost order: seq<Path>)
    returns (nowVisited: set<Path>, ghost nowOrder: seq<Path>)
    requires t.Valid() && state.queue != []
    requires Between(t, popped, state.queue, order, visited)
    requires state.Gathered(StatementsOf(t, order))
    modifies state
    ensures Between(t, popped + [old(state.queue)[0]], state.queue, nowOrder, nowVisited)
    ensures state.Gathered(StatementsOf(t, nowOrder))
    ensures nowVisited > visited || (nowVisited == visited && |state.queue| < |old(state.queue)|)
  {
    ghost var wasQueue := state.queue;
    var currentPath := state.queue[0];
    state.queue := state.queue[1..];
    var id := t.canonical(currentPath);
    nowVisited, nowOrder := visited, order;
    if id in visited {
      TurnSkips(t, popped, wasQueue, order, visited);
      return;
    }
    nowVisited, nowOrder := visited + {id}, order + [currentPath];
    TurnVisits(t, popped, wasQueue, order, visited);
    state.ReadFile(t, currentPath, StatementsOf(t, order));
  }

  /** The files of a crawl order were visited, and what they say was gathered. */
  ghost predicate Crawled(t: Tree, combined: string, order: seq<Path>, visited: set<Path>, formats: map<string, string>,
                          rawAccessLogs: seq<(Path, Option<string>)>, errorLogs: seq<Path>)
  {
    && IsCrawlOrder(t, order)
    && visited == Ids(t, order)
    && formats == FormatsOf(StatementsOf(t, order), combined)
    && rawAccessLogs == AccessLogsOf(StatementsOf(t, order))
    && errorLogs == ErrorLogsOf(StatementsOf(t, order))
  }

  method CrawlNginxConfigTree(t: Tree, combined: string)
    returns (visited: set<Path>, formats: map<string, string>, rawAccessLogs: seq<(Path, Option<string>)>,
             errorLogs: seq<Path>)
    requires t.Valid()
    ensures exists order :: Crawled(t, combined, order, visited, formats, rawAccessLogs, errorLogs)
  {
    var state := new CrawlerState(t.Roots(), combined);
    visited := {};
    ghost var order: seq<Path>, popped: seq<Path> := [], [];
    ProgressStarts(t);
    RootsOnDisk(t);
    while state.queue != []
      invariant fresh(state) && state.combined == combined
      invariant Between(t, popped, state.queue, order, visited)
      invariant state.Gathered(StatementsOf(t, order))
      decreases t.files - visited, |state.queue|
    {
      ghost var current := state.queue[0];
      visited, order := NextFile(t, state, visited, popped, order);
      popped := popped + [current];
    }
    assert popped + [] == popped;
    formats, rawAccessLogs, errorLogs := state.formats, state.rawAccessLogs, state.errorLogs;
    assert Crawled(t, combined, order, visited, formats, rawAccessLogs, errorLogs);
  }

  lemma NextStatement(t: Tree, dir: Path, before: seq<Statement>, statements: seq<Statement>, i: nat)
    requires i < |statements|
    ensures before + statements[..i] + [statements[i]] == before + statements[..i + 1]
    ensures IncludedBy(t, dir, statements[..i + 1])
         == IncludedBy(t, dir, statements[..i]) + IncludedBy(t, dir, [statements[i]])
  {
    assert statements[..i] + [statements[i]] == statements[..i + 1];
    AppendAssociates(before, statements[..i], [statements[i]]);
    assert statements[..i + 1][..i] == statements[..i] && [statements[i]][..0] == [];
  }

  lemma StatementsExtend(t: Tree, order: seq<Path>, p: Path)
    ensures StatementsOf(t, order + [p]) == StatementsOf(t, order) + t.Contents(p)
  {
    assert (order + [p])[..|order|] == order;
  }

  lemma EnqueuedExtends(t: Tree, order: seq<Path>, p: Path)
    ensures Enqueued(t, order + [p]) == Enqueued(t, order) + t.Includes(p)
  {
    assert (order + [p])[..|order|] == order;
  }

  lemma IdsExtend(t: Tree, paths: seq<Path>, p: Path)
    ensures Ids(t, paths + [p]) == Ids(t, paths) + {t.canonical(p)}
  {
    assert p in paths + [p];
  }

  /** Every queued path leads to one of the finitely many files. */
  ghost predicate OnDisk(t: Tree, queue: seq<Path>) {
    forall p :: p in queue ==> t.canonical(p) in t.files
  }

  lemma RootsOnDisk(t: Tree)
    requires t.Valid()
    ensures OnDisk(t, t.Roots())
  {
  }

  lemma IncludesOnDisk(t: Tree, p: Path, queue: seq<Path>)
    requires t.Valid() && OnDisk(t, queue)
    ensures OnDisk(t, queue + t.Includes(p))
  {
  }

  lemma ProgressStarts(t: Tree)
    ensures Progress(t, [], t.Roots(), [])
  {
    assert [] + t.Roots() == t.Roots() + [];
  }

  lemma FirstsExtend(t: Tree, paths: seq<Path>, p: Path)
    ensures Firsts(t, paths + [p])
         == Firsts(t, paths) + if t.canonical(p) in Ids(t, Firsts(t, paths)) then [] else [p]
  {
    assert (paths + [p])[..|paths|] == paths;
  }

  lemma SameAsSets(t: Tree, a: seq<Path>, b: seq<Path>)
    requires SamePaths(a, b)
    ensures a == b && Ids(t, a) == Ids(t, b)
  {
  }

  lemma AppendAssociates<T>(a: seq<T>, b: seq<T>, c: seq<T>)
    ensures a + (b + c) == (a + b) + c
  {
  }

  lemma Pop(popped: seq<Path>, p: Path, queue: seq<Path>, more: seq<Path>)
    ensures popped + ([p] + queue) + more == popped + [p] + (queue + more)
    ensures p in popped + ([p] + queue)
  {
    assert (popped + ([p] + queue))[|popped|] == p;
  }

  lemma {:induction false} ProgressSkips(t: Tree, popped: seq<Path>, p: Path, queue: seq<Path>, order: seq<Path>)
    requires Progress(t, popped, [p] + queue, order) && t.canonical(p) in Ids(t, order)
    ensures Progress(t, popped + [p], queue, order)
  {
    Pop(popped, p, queue, []);
    assert queue + [] == queue;
    SameAsSets(t, Firsts(t, popped), order);
    FirstsExtend(t, popped, p);
  }

  lemma {:induction false} ProgressVisits(t: Tree, popped: seq<Path>, p: Path, queue: seq<Path>, order: seq<Path>)
    requires Progress(t, popped, [p] + queue, order) && t.canonical(p) !in Ids(t, order)
    ensures Progress(t, popped + [p], queue + t.Includes(p), order + [p])
  {
    Pop(popped, p, queue, t.Includes(p));
    SameAsSets(t, Firsts(t, popped), order);
    FirstsExtend(t, popped, p);
    EnqueuedExtends(t, order, p);
    QueuedFirstExtends(t, order, p);
  }

  lemma QueuedFirstExtends(t: Tree, order: seq<Path>, p: Path)
    requires QueuedFirst(t, order) && p in Enqueued(t, order)
    ensures QueuedFirst(t, order + [p])
  {
    var longer := order + [p];
    assert longer[..|order|] == order;
    forall k | 0 <= k < |longer| ensures longer[k] in Enqueued(t, longer[..k]) {
      if k < |order| {
        assert longer[..k] == order[..k];
      }
    }
  }

  lemma HeadAndTail<T>(s: seq<T>)
    requires s != []
    ensures s == [s[0]] + s[1..]
  {
  }

  lemma OnDiskTail(t: Tree, queue: seq<Path>)
    requires queue != [] && OnDisk(t, queue)
    ensures OnDisk(t, queue[1..])
  {
  }

  lemma {:induction false} TurnSkips(t: Tree, popped: seq<Path>, queue: seq<Path>, order: seq<Path>, visited: set<Path>)
    requires queue != [] && Between(t, popped, queue, order, visited) && t.canonical(queue[0]) in visited
    ensures Between(t, popped + [queue[0]], queue[1..], order, visited)
  {
    HeadAndTail(queue);
    OnDiskTail(t, queue);
    ProgressSkips(t, popped, queue[0], queue[1..], order);
  }

  lemma {:induction false} TurnVisits(t: Tree, popped: seq<Path>, queue: seq<Path>, order: seq<Path>,
                                      visited: set<Path>)
    requires t.Valid() && queue != [] && Between(t, popped, queue, order, visited)
    requires t.canonical(queue[0]) !in visited
    ensures var p := queue[0];
            && Between(t, popped + [p], queue[1..] + t.Includes(p), order + [p], visited + {t.canonical(p)})
            && StatementsOf(t, order + [p]) == StatementsOf(t, order) + t.Contents(p)
  {
    var p := queue[0];
    HeadAndTail(queue);
    OnDiskTail(t, queue);
    ProgressVisits(t, popped, p, queue[1..], order);
    StatementsExtend(t, order, p);
    IdsExtend(t, order, p);
    IncludesOnDisk(t, p, queue[1..]);
  }

  // ----- the crawl order

  lemma {:induction false} FirstsMembers(t: Tree, paths: seq<Path>)
    ensures forall p :: p in Firsts(t, paths) ==> p in paths
    ensures Ids(t, Firsts(t, paths)) == Ids(t, paths)
  {
    if paths != [] {
      var before, last := paths[..|paths| - 1], paths[|paths| - 1];
      FirstsMembers(t, before);
      assert paths == before + [last];
      IdsExtend(t, before, last);
      IdsExtend(t, Firsts(t, before), last);
    }
  }

  ghost predicate Distinct(t: Tree, paths: seq<Path>) {
    forall i, j :: 0 <= i < j < |paths| ==> t.canonical(paths[i]) != t.canonical(paths[j])
  }

  lemma {:induction false} FirstsDistinct(t: Tree, paths: seq<Path>)
    ensures Distinct(t, Firsts(t, paths))
  {
    if paths != [] {
      FirstsDistinct(t, paths[..|paths| - 1]);
    }
  }

  /** No file is processed twice, whatever its aliases. */
  lemma ProcessedAtMostOnce(t: Tree, order: seq<Path>)
    requires IsCrawlOrder(t, order)
    ensures Distinct(t, order)
  {
    FirstsDistinct(t, Enqueued(t, order));
    SameAsSets(t, Known(t, order), order);
  }

  lemma {:induction false} FirstsPrefix(t: Tree, a: seq<Path>, b: seq<Path>)
    ensures Firsts(t, a) <= Firsts(t, a + b)
    decreases |b|
  {
    if b == [] {
      assert a + b == a;
    } else {
      assert (a + b)[..|a + b| - 1] == a + b[..|b| - 1];
      FirstsPrefix(t, a, b[..|b| - 1]);
    }
  }

  lemma {:induction false} EnqueuedGrows(t: Tree, a: seq<Path>, b: seq<Path>)
    ensures Enqueued(t, a) <= Enqueued(t, a + b)
    decreases |b|
  {
    if b == [] {
      assert a + b == a;
    } else {
      var c := a + b[..|b| - 1];
      assert a + b == c + [b[|b| - 1]];
      EnqueuedGrows(t, a, b[..|b| - 1]);
      EnqueuedExtends(t, c, b[|b| - 1]);
    }
  }

  lemma PrefixRest<T>(a: seq<T>, c: seq<T>)
    requires a <= c
    ensures a + c[|a|..] == c
  {
  }

  lemma SplitAt<T>(s: seq<T>, k: nat)
    requires k <= |s|
    ensures s[..k] + s[k..] == s
  {
  }

  lemma KnownGrows(t: Tree, a: seq<Path>, b: seq<Path>)
    ensures Known(t, a) <= Known(t, a + b)
  {
    var queued, all := Enqueued(t, a), Enqueued(t, a + b);
    EnqueuedGrows(t, a, b);
    PrefixRest(queued, all);
    FirstsPrefix(t, queued, all[|queued|..]);
  }

  lemma IdInPrefix(t: Tree, order: seq<Path>, known: seq<Path>, k: nat)
    requires k < |order| && known <= order && Distinct(t, order) && t.canonical(order[k]) in Ids(t, known)
    ensures k < |known|
  {
    var p :| p in known && t.canonical(p) == t.canonical(order[k]);
    var i :| 0 <= i < |known| && known[i] == p;
    assert order[i] == p;
  }

  /** What is queued while the first files are processed already determines the next one. */
  ghost predicate Determined(t: Tree, order: seq<Path>) {
    forall k :: 0 <= k <= |order| ==> DeterminedAt(Known(t, order[..k]), order, k)
  }

  ghost predicate DeterminedAt(known: seq<Path>, order: seq<Path>, k: nat) {
    known <= order && (k < |order| ==> k < |known|)
  }

  lemma KnownCovers(t: Tree, order: seq<Path>, p: Path)
    requires p in Enqueued(t, order)
    ensures t.canonical(p) in Ids(t, Known(t, order))
  {
    FirstsMembers(t, Enqueued(t, order));
  }

  lemma CrawlOrderDeterminedAt(t: Tree, order: seq<Path>, k: nat)
    requires IsCrawlOrder(t, order) && k <= |order|
    ensures DeterminedAt(Known(t, order[..k]), order, k)
  {
    SplitAt(order, k);
    KnownGrows(t, order[..k], order[k..]);
    SameAsSets(t, Known(t, order), order);
    if k < |order| {
      KnownCovers(t, order[..k], order[k]);
      ProcessedAtMostOnce(t, order);
      IdInPrefix(t, order, Known(t, order[..k]), k);
    }
  }

  lemma CrawlOrderDetermined(t: Tree, order: seq<Path>)
    requires IsCrawlOrder(t, order)
    ensures Determined(t, order)
  {
    forall k | 0 <= k <= |order| ensures DeterminedAt(Known(t, order[..k]), order, k) {
      CrawlOrderDeterminedAt(t, order, k);
    }
  }

  /** The crawl order is unique: breadth first, each file by the first path queued for it. */
  lemma CrawlOrderUnique(t: Tree, a: seq<Path>, b: seq<Path>)
    requires IsCrawlOrder(t, a) && IsCrawlOrder(t, b)
    ensures a == b
  {
    CrawlOrderDetermined(t, a);
    CrawlOrderDetermined(t, b);
    DeterminedOrdersAgree(t, a, b);
  }

  lemma DeterminedOrdersAgree(t: Tree, a: seq<Path>, b: seq<Path>)
    requires Determined(t, a) && Determined(t, b)
    ensures a == b
  {
    AgreeUpTo(t, a, b, |a|);
    AgreeUpTo(t, b, a, |b|);
    assert a[..|a|] == a && b[..|b|] == b;
  }

  lemma {:induction false} AgreeUpTo(t: Tree, a: seq<Path>, b: seq<Path>, k: nat)
    requires Determined(t, a) && Determined(t, b) && k <= |a|
    ensures k <= |b| && a[..k] == b[..k]
  {
    if k > 0 {
      AgreeUpTo(t, a, b, k - 1);
      var known := Known(t, a[..k - 1]);
      assert DeterminedAt(known, a, k - 1) && DeterminedAt(known, b, k - 1);
      assert a[k - 1] == known[k - 1] == b[k - 1];
    }
  }

  // ----- reachability

  /** A chain of includes from the root. */
  ghost predicate IsTrail(t: Tree, trail: seq<Path>) {
    && t.rootExists && trail != [] && trail[0] == t.root
    && forall i :: 0 < i < |trail| ==> trail[i] in t.Includes(trail[i - 1])
  }

  ghost predicate ReachablePath(t: Tree, p: Path) {
    exists trail :: IsTrail(t, trail) && trail[|trail| - 1] == p
  }

  ghost predicate Reachable(t: Tree, id: Path) {
    exists p :: ReachablePath(t, p) && t.canonical(p) == id
  }

  lemma RootReachable(t: Tree)
    requires t.rootExists
    ensures ReachablePath(t, t.root)
  {
    assert IsTrail(t, [t.root]);
    assert [t.root][|[t.root]| - 1] == t.root;
  }

  lemma TrailExtends(t: Tree, trail: seq<Path>, q: Path)
    requires IsTrail(t, trail) && q in t.Includes(trail[|trail| - 1])
    ensures IsTrail(t, trail + [q])
  {
    var longer := trail + [q];
    forall i | 0 < i < |longer| ensures longer[i] in t.Includes(longer[i - 1]) {
      if i < |trail| {
        assert longer[i] == trail[i] && longer[i - 1] == trail[i - 1];
      }
    }
  }

  lemma IncludeReachable(t: Tree, p: Path, q: Path)
    requires ReachablePath(t, p) && q in t.Includes(p)
    ensures ReachablePath(t, q)
  {
    var trail :| IsTrail(t, trail) && trail[|trail| - 1] == p;
    TrailExtends(t, trail, q);
    assert (trail + [q])[|trail + [q]| - 1] == q;
  }

  /** Where a queued path comes from. */
  lemma {:induction false} EnqueuedFrom(t: Tree, order: seq<Path>, q: Path)
    ensures q in Enqueued(t, order) <==> q in t.Roots() || exists p :: p in order && q in t.Includes(p)
  {
    if order != [] {
      var before, last := order[..|order| - 1], order[|order| - 1];
      assert order == before + [last];
      EnqueuedFrom(t, before, q);
      EnqueuedExtends(t, before, last);
    }
  }

  /** Only reachable files are processed, in any tree. */
  lemma {:induction false} ProcessedAreReachable(t: Tree, order: seq<Path>, k: nat)
    requires QueuedFirst(t, order) && k < |order|
    ensures ReachablePath(t, order[k])
  {
    EnqueuedFrom(t, order[..k], order[k]);
    assert order[k] in Enqueued(t, order[..k]);
    if order[k] in t.Roots() {
      RootReachable(t);
    } else {
      var p :| p in order[..k] && order[k] in t.Includes(p);
      var i :| 0 <= i < k && order[i] == p;
      ProcessedAreReachable(t, order, i);
      IncludeReachable(t, p, order[k]);
    }
  }

  lemma QueuedAreProcessed(t: Tree, order: seq<Path>, q: Path)
    requires IsCrawlOrder(t, order) && q in Enqueued(t, order)
    ensures t.canonical(q) in Ids(t, order)
  {
    KnownCovers(t, order, q);
    SameAsSets(t, Known(t, order), order);
  }

  /** The processed files include only processed files. */
  ghost predicate Closed(t: Tree, order: seq<Path>) {
    && (forall p :: p in t.Roots() ==> t.canonical(p) in Ids(t, order))
    && forall p :: p in order ==> Covers(t, p, Ids(t, order))
  }

  /** All that this path includes are these files. */
  ghost predicate Covers(t: Tree, p: Path, ids: set<Path>) {
    forall q :: q in t.Includes(p) ==> t.canonical(q) in ids
  }

  lemma CrawlIsClosed(t: Tree, order: seq<Path>)
    requires IsCrawlOrder(t, order)
    ensures Closed(t, order)
  {
    forall q | q in Enqueued(t, order) ensures t.canonical(q) in Ids(t, order) {
      QueuedAreProcessed(t, order, q);
    }
    forall q ensures q in Enqueued(t, order) <==> q in t.Roots() || exists p :: p in order && q in t.Includes(p) {
      EnqueuedFrom(t, order, q);
    }
  }

  /** No processed file leads elsewhere by a second name: its other reachable paths include only processed
      files. */
  ghost predicate AliasesAddNothing(t: Tree, order: seq<Path>) {
    forall p, q :: p in order && ReachablePath(t, q) && t.canonical(q) == t.canonical(p)
                   ==> Covers(t, q, Ids(t, order))
  }

  ghost predicate VisitsTheReachable(t: Tree, order: seq<Path>) {
    forall id :: id in Ids(t, order) <==> Reachable(t, id)
  }

  lemma TrailReaches(t: Tree, trail: seq<Path>, i: nat)
    requires IsTrail(t, trail) && i < |trail|
    ensures ReachablePath(t, trail[i])
  {
    var before := trail[..i + 1];
    assert IsTrail(t, before) && before[|before| - 1] == trail[i];
  }

  lemma NextIsProcessed(t: Tree, order: seq<Path>, q: Path, r: Path)
    requires AliasesAddNothing(t, order) && ReachablePath(t, q) && t.canonical(q) in Ids(t, order)
    requires r in t.Includes(q)
    ensures t.canonical(r) in Ids(t, order)
  {
    var p :| p in order && t.canonical(p) == t.canonical(q);
    assert Covers(t, q, Ids(t, order));
  }

  lemma {:induction false} TrailIsProcessed(t: Tree, order: seq<Path>, trail: seq<Path>, i: nat)
    requires Closed(t, order) && AliasesAddNothing(t, order)
    requires IsTrail(t, trail) && i < |trail|
    ensures t.canonical(trail[i]) in Ids(t, order)
  {
    if i > 0 {
      TrailIsProcessed(t, order, trail, i - 1);
      TrailReaches(t, trail, i - 1);
      NextIsProcessed(t, order, trail[i - 1], trail[i]);
    }
  }

  ghost predicate AllReachable(t: Tree, order: seq<Path>) {
    forall p :: p in order ==> ReachablePath(t, p)
  }

  lemma CrawlIsReachable(t: Tree, order: seq<Path>)
    requires QueuedFirst(t, order)
    ensures AllReachable(t, order)
  {
    forall p | p in order ensures ReachablePath(t, p) {
      var k :| 0 <= k < |order| && order[k] == p;
      ProcessedAreReachable(t, order, k);
    }
  }

  lemma ReachableIsProcessed(t: Tree, order: seq<Path>, id: Path)
    requires Closed(t, order) && AliasesAddNothing(t, order) && Reachable(t, id)
    ensures id in Ids(t, order)
  {
    var p :| ReachablePath(t, p) && t.canonical(p) == id;
    var trail :| IsTrail(t, trail) && trail[|trail| - 1] == p;
    TrailIsProcessed(t, order, trail, |trail| - 1);
  }

  lemma ClosedVisitsIff(t: Tree, order: seq<Path>)
    requires Closed(t, order) && AllReachable(t, order)
    ensures VisitsTheReachable(t, order) <==> AliasesAddNothing(t, order)
  {
    if AliasesAddNothing(t, order) {
      forall id | Reachable(t, id) ensures id in Ids(t, order) {
        ReachableIsProcessed(t, order, id);
      }
    }
    if VisitsTheReachable(t, order) {
      forall q, r | ReachablePath(t, q) && r in t.Includes(q) ensures t.canonical(r) in Ids(t, order) {
        IncludeReachable(t, q, r);
        assert Reachable(t, t.canonical(r));
      }
    }
  }

  /** The crawl visits exactly the files reachable from the root if and only if no other reachable path of a
      processed file leads to a file it missed. Cycles, and aliases that add nothing, change nothing. */
  lemma VisitsExactlyTheReachable(t: Tree, order: seq<Path>)
    requires IsCrawlOrder(t, order)
    ensures VisitsTheReachable(t, order) <==> AliasesAddNothing(t, order)
  {
    CrawlIsClosed(t, order);
    CrawlIsReachable(t, order);
    ClosedVisitsIff(t, order);
  }

  // ----- conditions on the tree alone

  /** Two reachable paths of one file include the same files. */
  ghost predicate IncludesByIdentity(t: Tree) {
    forall p, q :: ReachablePath(t, p) && ReachablePath(t, q) && t.canonical(p) == t.canonical(q)
                   ==> Covers(t, q, Ids(t, t.Includes(p)))
  }

  /** The path a file was processed by includes all that its other reachable paths do. */
  ghost predicate FirstPathCovers(t: Tree, order: seq<Path>) {
    forall p, q :: p in order && ReachablePath(t, q) && t.canonical(q) == t.canonical(p)
                   ==> Covers(t, q, Ids(t, t.Includes(p)))
  }

  lemma CoversThrough(t: Tree, p: Path, q: Path, ids: set<Path>)
    requires Covers(t, q, Ids(t, t.Includes(p))) && Covers(t, p, ids)
    ensures Covers(t, q, ids)
  {
  }

  lemma FirstPathCoversAddsNothing(t: Tree, order: seq<Path>)
    requires Closed(t, order) && FirstPathCovers(t, order)
    ensures AliasesAddNothing(t, order)
  {
    forall p, q | p in order && ReachablePath(t, q) && t.canonical(q) == t.canonical(p)
      ensures Covers(t, q, Ids(t, order))
    {
      CoversThrough(t, p, q, Ids(t, order));
    }
  }

  lemma FirstPathCoversVisits(t: Tree, order: seq<Path>)
    requires IsCrawlOrder(t, order) && FirstPathCovers(t, order)
    ensures VisitsTheReachable(t, order)
  {
    CrawlIsClosed(t, order);
    FirstPathCoversAddsNothing(t, order);
    VisitsExactlyTheReachable(t, order);
  }

  lemma IdentityCovers(t: Tree, order: seq<Path>)
    requires AllReachable(t, order) && IncludesByIdentity(t)
    ensures FirstPathCovers(t, order)
  {
  }

  lemma IdentityVisitsTheReachable(t: Tree, order: seq<Path>)
    requires IsCrawlOrder(t, order) && IncludesByIdentity(t)
    ensures VisitsTheReachable(t, order)
  {
    CrawlIsReachable(t, order);
    IdentityCovers(t, order);
    FirstPathCoversVisits(t, order);
  }

  /** Some pattern of this file, if it is read outside the base directory, is looked up beside it. */
  ghost predicate TakesFallback(t: Tree, p: Path) {
    exists k :: 0 <= k < |t.Contents(p)| && FallsBack(t, t.Contents(p)[k])
  }

  ghost predicate FallsBack(t: Tree, s: Statement) {
    s.Include? && !IsAbsolute(s.pattern) && t.expand(t.Base(), s.pattern) == []
  }

  lemma {:induction false} SameFilesIncluded(t: Tree, dir: Path, dir': Path, statements: seq<Statement>)
    requires dir == dir' || forall k :: 0 <= k < |statements| ==> !FallsBack(t, statements[k])
    ensures IncludedBy(t, dir, statements) == IncludedBy(t, dir', statements)
  {
    if statements != [] {
      var last := statements[|statements| - 1];
      SameFilesIncluded(t, dir, dir', statements[..|statements| - 1]);
      assert dir == dir' || !FallsBack(t, last);
    }
  }

  /** The guard of the fallback: every reachable file that takes it has all its reachable paths in one
      directory. */
  ghost predicate FallbackIsLocal(t: Tree) {
    forall p, q :: ReachablePath(t, p) && ReachablePath(t, q) && t.canonical(p) == t.canonical(q)
                   ==> t.Directory(p) == t.Directory(q) || !TakesFallback(t, p)
  }

  lemma LocalFallbackIncludesByIdentity(t: Tree)
    requires FallbackIsLocal(t)
    ensures IncludesByIdentity(t)
  {
    forall p, q | ReachablePath(t, p) && ReachablePath(t, q) && t.canonical(p) == t.canonical(q)
      ensures Covers(t, q, Ids(t, t.Includes(p)))
    {
      SameFilesIncluded(t, t.Directory(p), t.Directory(q), t.Contents(p));
      assert t.Includes(p) == t.Includes(q);
    }
  }

  /** Then the crawl visits exactly the reachable files. */
  lemma LocalFallbackVisitsTheReachable(t: Tree, order: seq<Path>)
    requires IsCrawlOrder(t, order) && FallbackIsLocal(t)
    ensures VisitsTheReachable(t, order)
  {
    LocalFallbackIncludesByIdentity(t);
    IdentityVisitsTheReachable(t, order);
  }

  /** No file is included from two files, and none includes the root. */
  ghost predicate SoleIncluders(t: Tree) {
    && (forall p, q :: ReachablePath(t, p) && ReachablePath(t, q) && t.canonical(p) != t.canonical(q)
                       ==> Ids(t, t.Includes(p)) !! Ids(t, t.Includes(q)))
    && (forall p :: ReachablePath(t, p) ==> t.canonical(t.root) !in Ids(t, t.Includes(p)))
  }

  lemma ProcessedHasIncluder(t: Tree, order: seq<Path>, id: Path) returns (p: Path)
    requires IsCrawlOrder(t, order) && id in Ids(t, order) && id != t.canonical(t.root)
    ensures p in order && id in Ids(t, t.Includes(p))
  {
    var s :| s in order && t.canonical(s) == id;
    FirstsMembers(t, Enqueued(t, order));
    SameAsSets(t, Known(t, order), order);
    EnqueuedFrom(t, order, s);
    p :| p in order && s in t.Includes(p);
  }

  lemma OneProcessedPath(t: Tree, order: seq<Path>, p: Path, q: Path)
    requires IsCrawlOrder(t, order) && p in order && q in order && t.canonical(p) == t.canonical(q)
    ensures p == q
  {
    ProcessedAtMostOnce(t, order);
    var i :| 0 <= i < |order| && order[i] == p;
    var j :| 0 <= j < |order| && order[j] == q;
  }

  /** A processed file can only have come from the one file that includes it. */
  lemma SoleIncluderFound(t: Tree, order: seq<Path>, p: Path, q: Path, r: Path)
    requires IsCrawlOrder(t, order) && SoleIncluders(t) && AllReachable(t, order)
    requires p in order && ReachablePath(t, q) && t.canonical(q) == t.canonical(p) && r in t.Includes(q)
    requires t.canonical(r) in Ids(t, order)
    ensures t.canonical(r) in Ids(t, t.Includes(p))
  {
    assert t.canonical(r) in Ids(t, t.Includes(q));
    var p' := ProcessedHasIncluder(t, order, t.canonical(r));
    OneProcessedPath(t, order, p, p');
  }

  lemma SoleIncluderCovers(t: Tree, order: seq<Path>, p: Path, q: Path)
    requires IsCrawlOrder(t, order) && SoleIncluders(t) && AllReachable(t, order)
    requires p in order && ReachablePath(t, q) && t.canonical(q) == t.canonical(p) && Covers(t, q, Ids(t, order))
    ensures Covers(t, q, Ids(t, t.Includes(p)))
  {
    forall r | r in t.Includes(q) ensures t.canonical(r) in Ids(t, t.Includes(p)) {
      SoleIncluderFound(t, order, p, q, r);
    }
  }

  lemma SoleIncludersCover(t: Tree, order: seq<Path>)
    requires IsCrawlOrder(t, order) && SoleIncluders(t) && AllReachable(t, order) && AliasesAddNothing(t, order)
    ensures FirstPathCovers(t, order)
  {
    forall p, q | p in order && ReachablePath(t, q) && t.canonical(q) == t.canonical(p)
      ensures Covers(t, q, Ids(t, t.Includes(p)))
    {
      SoleIncluderCovers(t, order, p, q);
    }
  }

  /** The converse: where every file is included from one file, the crawl visits exactly the reachable files if
      and only if the path each file was processed by includes all that its other reachable paths do. */
  lemma SoleIncludersVisitIff(t: Tree, order: seq<Path>)
    requires IsCrawlOrder(t, order) && SoleIncluders(t)
    ensures VisitsTheReachable(t, order) <==> FirstPathCovers(t, order)
  {
    if FirstPathCovers(t, order) {
      FirstPathCoversVisits(t, order);
    } else if VisitsTheReachable(t, order) {
      CrawlIsReachable(t, order);
      VisitsExactlyTheReachable(t, order);
      SoleIncludersCover(t, order);
    }
  }

  // ----- a file the crawl misses

  /** The file at `a` has a second path `b` in another directory, and includes a relative pattern that only
      matches there. */
  function AliasTree(base: Path, other: Path, r: Path, a: Path, b: Path, c: Path, near: string, far: string,
                     lost: string): Tree
  {
    Tree(r, true, {r, a, c},
         p => if p == b then a else if p == r || p == a then p else c,
         p => if p == r then Some([Include(near), Include(far)])
              else if p == a then Some([Include(lost)]) else Some([]),
         p => if p == r || p == a then Some(base) else Some(other),
         base,
         (dir, pattern) => if pattern == near then [a] else if pattern == far then [b]
                           else if dir == other && pattern == lost then [c] else [])
  }

  /** Without such a condition a file can stay hidden: its includer has been processed as `a` when `b` comes up. */
  lemma AliasesCanHideFiles()
    ensures var r, a, b, c := Path("/n/nginx.conf"), Path("/n/a"), Path("/x/b"), Path("/x/c");
            var t := AliasTree(Path("/n"), Path("/x"), r, a, b, c, "a", "/x/b", "c");
            && t.Valid() && SoleIncluders(t) && !FirstPathCovers(t, [r, a])
            && IsCrawlOrder(t, [r, a])
            && Reachable(t, c) && c !in Ids(t, [r, a])
  {
    var r, a, b, c := "/n/nginx.conf", "/n/a", "/x/b", "/x/c";
    assert |r| == 13 && |a| == |b| == |c| == 4 && a[1] == 'n' && b[1] == c[1] == 'x' && b[3] == 'b' && c[3] == 'c';
    assert "/n"[1] == 'n' && "/x"[1] == 'x';
    assert "a"[0] == 'a' && "c"[0] == 'c';
    AliasTreeHides(Path("/n"), Path("/x"), Path(r), Path(a), Path(b), Path(c), "a", "/x/b", "c");
  }

  lemma AliasTreeHides(base: Path, other: Path, r: Path, a: Path, b: Path, c: Path, near: string, far: string,
                       lost: string)
    requires r != a && r != b && r != c && a != b && a != c && b != c && base != other
    requires near != far && near != lost && far != lost && !IsAbsolute(lost)
    ensures var t := AliasTree(base, other, r, a, b, c, near, far, lost);
            && t.Valid() && SoleIncluders(t) && !FirstPathCovers(t, [r, a])
            && IsCrawlOrder(t, [r, a])
            && Reachable(t, c) && c !in Ids(t, [r, a])
  {
    var t := AliasTree(base, other, r, a, b, c, near, far, lost);
    AliasTreeReads(base, other, r, a, b, c, near, far, lost);
    AliasHides(t, r, a, b, c);
    AliasSole(t, r, a, b, c);
    AliasNotCovered(t, r, a, b, c);
    AliasTreeValid(base, other, r, a, b, c, near, far, lost);
  }

  lemma AliasTreeValid(base: Path, other: Path, r: Path, a: Path, b: Path, c: Path, near: string, far: string,
                       lost: string)
    ensures AliasTree(base, other, r, a, b, c, near, far, lost).Valid()
  {
    assert forall p :: AliasTree(base, other, r, a, b, c, near, far, lost).canonical(p) in {r, a, c};
  }

  lemma IncludedByOne(t: Tree, dir: Path, s: Statement)
    requires s.Include?
    ensures IncludedBy(t, dir, [s]) == t.ResolveIncludePattern(dir, s.pattern)
  {
    assert [s][..0] == [];
  }

  lemma IncludedByTwo(t: Tree, dir: Path, first: string, second: string)
    ensures IncludedBy(t, dir, [Include(first), Include(second)])
         == t.ResolveIncludePattern(dir, first) + t.ResolveIncludePattern(dir, second)
  {
    assert [Include(first), Include(second)][..1] == [Include(first)];
    IncludedByOne(t, dir, Include(first));
  }

  lemma AliasTreeReads(base: Path, other: Path, r: Path, a: Path, b: Path, c: Path, near: string, far: string,
                       lost: string)
    requires r != a && r != b && r != c && a != b && a != c && b != c && base != other
    requires near != far && near != lost && far != lost && !IsAbsolute(lost)
    ensures var t := AliasTree(base, other, r, a, b, c, near, far, lost);
            && t.Includes(r) == [a, b] && t.Includes(a) == [] && t.Includes(b) == [c]
            && forall p :: p != r && p != a && p != b ==> t.Includes(p) == []
  {
    var t := AliasTree(base, other, r, a, b, c, near, far, lost);
    assert t.Base() == base && t.Directory(b) == other;
    assert t.Contents(r) == [Include(near), Include(far)] && t.Contents(a) == t.Contents(b) == [Include(lost)];
    IncludedByTwo(t, base, near, far);
    IncludedByOne(t, base, Include(lost));
    IncludedByOne(t, other, Include(lost));
  }

  lemma AliasSole(t: Tree, r: Path, a: Path, b: Path, c: Path)
    requires t.Includes(r) == [a, b] && t.Includes(a) == [] && t.Includes(b) == [c]
    requires forall p :: p != r && p != a && p != b ==> t.Includes(p) == []
    requires t.root == r && t.canonical(r) != t.canonical(a) == t.canonical(b)
    requires t.canonical(c) != t.canonical(a) && t.canonical(c) != t.canonical(r)
    ensures SoleIncluders(t)
  {
    forall p, q | t.canonical(p) != t.canonical(q) ensures Ids(t, t.Includes(p)) !! Ids(t, t.Includes(q)) {
      assert t.Includes(p) == [] || p == r || p == b;
      assert t.Includes(q) == [] || q == r || q == b;
    }
  }

  lemma AliasHides(t: Tree, r: Path, a: Path, b: Path, c: Path)
    requires t.Roots() == [r] && t.Includes(r) == [a, b] && t.Includes(a) == [] && t.Includes(b) == [c]
    requires t.canonical(r) != t.canonical(a) == t.canonical(b)
    requires t.canonical(c) != t.canonical(a) && t.canonical(c) != t.canonical(r)
    ensures IsCrawlOrder(t, [r, a])
    ensures Reachable(t, t.canonical(c)) && t.canonical(c) !in Ids(t, [r, a])
    ensures ReachablePath(t, b)
  {
    AliasOrder(t, r, a, b);
    RootReachable(t);
    IncludeReachable(t, r, b);
    IncludeReachable(t, b, c);
  }

  lemma AliasNotCovered(t: Tree, r: Path, a: Path, b: Path, c: Path)
    requires ReachablePath(t, b) && t.Includes(a) == [] && t.Includes(b) == [c] && t.canonical(a) == t.canonical(b)
    ensures !FirstPathCovers(t, [r, a])
  {
    assert a in [r, a] && c in t.Includes(b) && t.canonical(c) !in Ids(t, t.Includes(a));
    assert !Covers(t, b, Ids(t, t.Includes(a)));
  }

  lemma AliasEnqueued(t: Tree, r: Path, a: Path, b: Path)
    requires t.Roots() == [r] && t.Includes(r) == [a, b] && t.Includes(a) == []
    ensures Enqueued(t, []) == [r]
    ensures Enqueued(t, [r]) == Enqueued(t, [r, a]) == [r, a, b]
  {
    assert [] + [r] == [r] && [r] + [a] == [r, a];
    EnqueuedExtends(t, [], r);
    EnqueuedExtends(t, [r], a);
    assert [r] + [a, b] == [r, a, b];
  }

  lemma AliasFirsts(t: Tree, r: Path, a: Path, b: Path)
    requires t.canonical(r) != t.canonical(a) == t.canonical(b)
    ensures Firsts(t, [r, a, b]) == [r, a]
  {
    assert [] + [r] == [r] && [r] + [a] == [r, a] && [r, a] + [b] == [r, a, b];
    FirstsExtend(t, [], r);
    FirstsExtend(t, [r], a);
    assert a in [r, a];
    FirstsExtend(t, [r, a], b);
  }

  /** A root that includes two aliases is read, then the first alias, and nothing else. */
  lemma AliasOrder(t: Tree, r: Path, a: Path, b: Path)
    requires t.Roots() == [r] && t.Includes(r) == [a, b] && t.Includes(a) == []
    requires t.canonical(r) != t.canonical(a) == t.canonical(b)
    ensures IsCrawlOrder(t, [r, a])
  {
    AliasEnqueued(t, r, a, b);
    AliasFirsts(t, r, a, b);
    forall k | 0 <= k < 2 ensures [r, a][k] in Enqueued(t, [r, a][..k]) {
      if k == 0 {
        assert [r, a][..0] == [];
      } else {
        assert [r, a][..1] == [r] && a == [r, a, b][1];
      }
    }
  }

  // ----- what the crawl gathers

  /** No later definition of this format. */
  ghost predicate LastDefinition(statements: seq<Statement>, i: nat, name: string)
    requires i < |statements|
  {
    && statements[i].LogFormat? && statements[i].name == name
    && forall j :: i < j < |statements| && statements[j].LogFormat? ==> statements[j].name != name
  }

  ghost predicate Undefined(statements: seq<Statement>, name: string) {
    forall i :: 0 <= i < |statements| && statements[i].LogFormat? ==> statements[i].name != name
  }

  /** A format has the body of its last definition; `combined` is there even when nothing defines it. */
  lemma {:induction false} FormatsMeaning(statements: seq<Statement>, combined: string, name: string)
    ensures name in FormatsOf(statements, combined) <==> name == "combined" || !Undefined(statements, name)
    ensures Undefined(statements, name) && name == "combined" ==> FormatsOf(statements, combined)[name] == combined
    ensures forall i :: 0 <= i < |statements| && LastDefinition(statements, i, name)
                        ==> name in FormatsOf(statements, combined)
                            && FormatsOf(statements, combined)[name] == statements[i].body
  {
    if statements != [] {
      var n := |statements| - 1;
      var before := statements[..n];
      FormatsMeaning(before, combined, name);
      assert Undefined(statements, name)
          <==> Undefined(before, name) && !(statements[n].LogFormat? && statements[n].name == name);
      forall i | 0 <= i < |statements| && LastDefinition(statements, i, name)
        ensures name in FormatsOf(statements, combined) && FormatsOf(statements, combined)[name] == statements[i].body
      {
        if i < n {
          assert before[i] == statements[i] && LastDefinition(before, i, name);
          assert !(statements[n].LogFormat? && statements[n].name == name);
        }
      }
    }
  }

  /** Error logs are the ones mentioned, each once. */
  lemma {:induction false} ErrorLogsMeaning(statements: seq<Statement>)
    ensures forall p :: p in ErrorLogsOf(statements) <==> ErrorLog(p) in statements
    ensures forall i, j :: 0 <= i < j < |ErrorLogsOf(statements)|
                           ==> ErrorLogsOf(statements)[i] != ErrorLogsOf(statements)[j]
  {
    if statements != [] {
      var n := |statements| - 1;
      ErrorLogsMeaning(statements[..n]);
      assert statements == statements[..n] + [statements[n]];
    }
  }

  /** And in order of first mention: later statements only add behind. */
  lemma {:induction false} ErrorLogsInOrder(before: seq<Statement>, after: seq<Statement>)
    ensures ErrorLogsOf(before) <= ErrorLogsOf(before + after)
    decreases |after|
  {
    var all := before + after;
    if after == [] {
      assert all == before;
    } else {
      assert all[..|all| - 1] == before + after[..|after| - 1];
      ErrorLogsInOrder(before, after[..|after| - 1]);
    }
  }

  /** Access logs are listed in the order of their statements, each with its path and the format it names. */
  lemma {:induction false} AccessLogsMeaning(before: seq<Statement>, s: Statement, after: seq<Statement>)
    ensures AccessLogsOf(before + [s] + after)
         == AccessLogsOf(before) + (if s.AccessLog? then [(s.path, s.format)] else []) + AccessLogsOf(after)
    decreases |after|
  {
    if after == [] {
      assert before + [s] + after == before + [s] && (before + [s])[..|before|] == before;
      assert AccessLogsOf(before + [s]) + [] == AccessLogsOf(before + [s]);
    } else {
      var all, init := before + [s] + after, after[..|after| - 1];
      assert all[..|all| - 1] == before + [s] + init;
      AccessLogsMeaning(before, s, init);
    }
  }

  // ----- resolving access logs

  datatype Discovered<K> = Discovered(path: Path, kind: K)

  /** `main` falls back on `combined`, and an unknown name on the combined kind. */
  function DetermineFormatKind<K>(name: Option<string>, formats: map<string, string>, classify: string -> K,
                                  fallback: K): K
  {
    var name := if name.Some? then name.value else "combined";
    if name in formats then classify(formats[name])
    else if name == "main" then if "combined" in formats then classify(formats["combined"]) else fallback
    else fallback
  }

  /** What a format name stands for once everything is gathered. */
  ghost predicate Body(statements: seq<Statement>, combined: string, name: string, body: string) {
    || (exists i :: 0 <= i < |statements| && LastDefinition(statements, i, name) && body == statements[i].body)
    || (Undefined(statements, name) && name == "combined" && body == combined)
  }

  lemma {:induction false} LastDefinitionExists(statements: seq<Statement>, name: string) returns (i: nat)
    requires !Undefined(statements, name)
    ensures i < |statements| && LastDefinition(statements, i, name)
  {
    var n := |statements| - 1;
    if statements[n].LogFormat? && statements[n].name == name {
      i := n;
    } else {
      var init := statements[..n];
      assert !Undefined(init, name) by {
        var k :| 0 <= k < |statements| && statements[k].LogFormat? && statements[k].name == name;
        assert init[k] == statements[k];
      }
      i := LastDefinitionExists(init, name);
    }
  }

  lemma BodyIsFormat(statements: seq<Statement>, combined: string, name: string)
    ensures var formats := FormatsOf(statements, combined);
            if name in formats then Body(statements, combined, name, formats[name])
            else Undefined(statements, name) && name != "combined"
  {
    FormatsMeaning(statements, combined, name);
    if !Undefined(statements, name) {
      var i := LastDefinitionExists(statements, name);
    }
  }

  /** The kind of a log is that of the body its format name stands for, `combined` if it names none; `main`, left
      undefined, stands for `combined` too, and any other undefined name for the fallback. */
  ghost predicate KindFits<K(!new)>(statements: seq<Statement>, combined: string, name: Option<string>,
                                    classify: string -> K, fallback: K, kind: K)
  {
    var n := if name.Some? then name.value else "combined";
    if !Undefined(statements, n) || n == "combined"
    then exists body :: Body(statements, combined, n, body) && kind == classify(body)
    else if n == "main"
    then exists body :: Body(statements, combined, "combined", body) && kind == classify(body)
    else kind == fallback
  }

  lemma KindMeaning<K(!new)>(statements: seq<Statement>, combined: string, name: Option<string>,
                             classify: string -> K, fallback: K)
    ensures KindFits(statements, combined, name, classify, fallback,
                     DetermineFormatKind(name, FormatsOf(statements, combined), classify, fallback))
  {
    var n := if name.Some? then name.value else "combined";
    FormatsMeaning(statements, combined, n);
    FormatsMeaning(statements, combined, "combined");
    BodyIsFormat(statements, combined, n);
    BodyIsFormat(statements, combined, "combined");
  }

  predicate Mentions<K>(logs: seq<Discovered<K>>, path: Path) {
    exists i :: 0 <= i < |logs| && logs[i].path == path
  }

  predicate FirstMention(raw: seq<(Path, Option<string>)>, i: nat)
    requires i < |raw|
  {
    forall j :: 0 <= j < i ==> raw[j].0 != raw[i].0
  }

  /** Indices of the first mention of each path, in order. */
  function FirstMentions(raw: seq<(Path, Option<string>)>, n: nat): (firsts: seq<nat>)
    requires n <= |raw|
    ensures forall k :: 0 <= k < |firsts| ==> firsts[k] < n
    ensures forall k :: 0 <= k < |firsts| ==> FirstMention(raw, firsts[k])
    ensures forall i :: 0 <= i < n && FirstMention(raw, i) ==> i in firsts
    ensures forall j, k :: 0 <= j < k < |firsts| ==> firsts[j] < firsts[k]
  {
    if n == 0 then []
    else FirstMentions(raw, n - 1) + if FirstMention(raw, n - 1) then [n - 1] else []
  }

  lemma {:induction false} FirstMentionExists(raw: seq<(Path, Option<string>)>, i: nat) returns (first: nat)
    requires i < |raw|
    ensures first <= i && FirstMention(raw, first) && raw[first].0 == raw[i].0
  {
    if FirstMention(raw, i) {
      first := i;
    } else {
      var j :| 0 <= j < i && raw[j].0 == raw[i].0;
      first := FirstMentionExists(raw, j);
    }
  }

  function Entry<K>(log: (Path, Option<string>), formats: map<string, string>, classify: string -> K, fallback: K)
    : Discovered<K>
  {
    Discovered(log.0, DetermineFormatKind(log.1, formats, classify, fallback))
  }

  /** The entries of these mentions, in order. */
  ghost predicate Resolves<K(!new)>(logs: seq<Discovered<K>>, raw: seq<(Path, Option<string>)>, firsts: seq<nat>,
                                    formats: map<string, string>, classify: string -> K, fallback: K)
  {
    && |logs| == |firsts|
    && (forall k :: 0 <= k < |firsts| ==> firsts[k] < |raw|)
    && forall k :: 0 <= k < |firsts| ==> logs[k] == Entry(raw[firsts[k]], formats, classify, fallback)
  }

  lemma MentionedIffNotFirst<K(!new)>(logs: seq<Discovered<K>>, raw: seq<(Path, Option<string>)>, i: nat,
                                      formats: map<string, string>, classify: string -> K, fallback: K)
    requires i < |raw| && Resolves(logs, raw, FirstMentions(raw, i), formats, classify, fallback)
    ensures Mentions(logs, raw[i].0) <==> !FirstMention(raw, i)
  {
    var firsts := FirstMentions(raw, i);
    if Mentions(logs, raw[i].0) {
      var k :| 0 <= k < |logs| && logs[k].path == raw[i].0;
      assert raw[firsts[k]].0 == raw[i].0;
    }
    if !FirstMention(raw, i) {
      var j :| 0 <= j < i && raw[j].0 == raw[i].0;
      var first := FirstMentionExists(raw, j);
      var k :| 0 <= k < |firsts| && firsts[k] == first;
      assert logs[k].path == raw[i].0;
    }
  }

  /** One entry for each mentioned path, in order of first mention and with the format of that mention. */
  method ResolveAccessLogs<K(==,!new)>(raw: seq<(Path, Option<string>)>, formats: map<string, string>,
                                       classify: string -> K, fallback: K)
    returns (logs: seq<Discovered<K>>)
    ensures Resolves(logs, raw, FirstMentions(raw, |raw|), formats, classify, fallback)
  {
    logs := [];
    for i := 0 to |raw|
      invariant Resolves(logs, raw, FirstMentions(raw, i), formats, classify, fallback)
    {
      MentionedIffNotFirst(logs, raw, i, formats, classify, fallback);
      if Mentions(logs, raw[i].0) {
        continue;
      }
      logs := logs + [Entry(raw[i], formats, classify, fallback)];
    }
  }

  /** Resolved after a crawl: each log has the kind its first mention calls for, among the formats of all files. */
  lemma ResolvedKinds<K(!new)>(statements: seq<Statement>, combined: string, logs: seq<Discovered<K>>,
                               classify: string -> K, fallback: K, k: nat)
    requires var raw := AccessLogsOf(statements);
             Resolves(logs, raw, FirstMentions(raw, |raw|), FormatsOf(statements, combined), classify, fallback)
    requires k < |logs|
    ensures var raw := AccessLogsOf(statements);
            exists i :: 0 <= i < |raw| && FirstMention(raw, i) && logs[k].path == raw[i].0
                        && KindFits(statements, combined, raw[i].1, classify, fallback, logs[k].kind)
  {
    var raw := AccessLogsOf(statements);
    var i := FirstMentions(raw, |raw|)[k];
    KindMeaning(statements, combined, raw[i].1, classify, fallback);
    assert FirstMention(raw, i) && logs[k].path == raw[i].0;
  }
}
