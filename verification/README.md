# Sanalu in Dafny

Sanalu reads nginx and SSH logs, decides which addresses to ban, and pushes bans to nftables and to a
Cloudflare rule. This project models the algorithms and state machines behind that decision and proves what
they promise. Code that works by changing things is modelled by classes and loops, each method proved against
a specification function or an outright statement; the theorems are then about those specifications.

| module | source | main results |
|---|---|---|
| `Cidr`, `CidrSplit`, `GeoLookup` | `src/storage/cidr.rs`, `src/geo/lookup.rs` | range splitting is an exact, minimal cover of at most 62 blocks; mask test, binary search and block list agree |
| `Strikes`, `Pipeline` | `src/intelligence/`, `src/engine/pipeline.rs` | counters refine event histories; sweeps change no action; the right action for every request, and bursts over whole runs; the firewall rule matches only what the pipeline stops |
| `Escalation` | `src/engine/escalation.rs` | the pigeonhole guarantee, its tightness, and what the n-th ban holds |
| `Expression`, `RuleReader`, `SyncWorker`, `Store` | `src/cloudflare/`, `src/ipc/handlers.rs` | the greedy renderer is optimal within its budget and its text reads back as the rule; when nothing fails the coalescing worker misses no write |
| `Glob`, `Directives`, `LogCompile`, `LogFormat`, `Crawl`, `Text` | `src/discovery/crawler.rs`, `src/parser/nginx.rs` | matcher against the glob relation; print/parse round trips; what a log line says; when the crawl visits exactly the reachable files |
| `Normalize` | `src/intelligence/normalize.rs` | decoding yields a normal form, unchanged by respelling separators and dots |
| `Calendar` | `src/ipc/datetime.rs`, `src/geo/downloader.rs` | two date algorithms agree with the calendar and each other |
| `Registry` | `src/engine/registry.rs` | reconciliation leaks no task and balances its report |

`Bits`, `Pigeonhole` and `Wrappers` hold the arithmetic and stock datatypes these use, and `Probes` the bound on
strike windows that `Pipeline` needs.

## Where the code is not what one might expect

- `matches_glob` compares characters before it looks for a star, so a text with a star in it can be rejected by a
  pattern that matches it. `Glob.ExactlyStarFreeTexts` shows that star-free texts are exactly those decided rightly by
  all patterns, and `Glob.ExactlyStarFreePatterns` that star-free patterns are exactly those that decide all texts
  rightly.
- `parse_nginx_format_body` makes no progress at a `;` outside a quoted argument. Its loop is given turn by turn;
  `Directives.ReturnsIffNoBareSemicolon` proves that it runs forever exactly on such bodies, and
  `Directives.QuotedNameNeverReturns` gives a file whose directive the lexer hands over to that loop.
- `SimpleCidr::contains` does not compare address families; `Cidr.MixedFamilyContains` and
  `Cidr.MixedFamilyContainsV6` say what it computes then; by `Cidr.PrivateBlockContainsV6`, 10.0.0.0/8 contains
  ::a00:1.
- With restricted ASNs but no allowed region, the rendered rule omits the regional clause while the pipeline bans
  every restricted ASN (`Pipeline.RestrictedWithoutRegions`). For a rule that fits its budget whole,
  `Pipeline.UncutRuleIsExact` shows that nothing else differs, and `Pipeline.RuleAgreesIff` for which tables
  nothing differs at all.
- Regions are printed in quotes as they are. The rule's text reads back as the clauses it was made from exactly when
  no region has a quote in it: `RuleReader.RuleReadsIff`.
- The configuration lexer acts on `;`, `{`, `}` and `#` within quotes as it does outside:
  `Directives.SeparatorsActInQuotes`.
- `2 * max_retry - 2` offences already suffice for the escalation guarantee where `2 * max_retry - 1` might be
  expected, and `Escalation.GuaranteeIsTight` shows that one fewer does not.
- A second `reconcile` reports only unchanged logs exactly when no path is listed with two formats
  (`Registry.SecondReconciliation`); a list without duplicates is a special case.
- The registry keeps the handle of a watcher whose task ended at once because its log could not be opened. The log is
  reported added, then unchanged, and as long as it stays listed with one format no task ever reads it, even when it
  exists by then: `Registry.MissingLogStaysUnwatched`, `Registry.StatusIsForGood`.
- A file named by two paths is crawled by the first. A relative include that matches nothing below the base directory
  is looked up beside the including path, so a second path in another directory can lead to files the crawl misses:
  `Crawl.AliasesCanHideFiles`. `Crawl.VisitsExactlyTheReachable` says exactly when it misses none,
  `Crawl.LocalFallbackVisitsTheReachable` which configurations are safe, and `Crawl.SoleIncludersVisitIff` is a
  converse.

## Modelling conventions

- In `Normalize`, `Glob` and `Expression` a character stands for one byte; in `Directives`, `LogCompile` and
  `LogFormat` for a Unicode scalar value. In `GeoLookup` a country is the first two characters of its column, where
  the source takes the first two bytes; on ASCII they agree. `Bits.u32` and its siblings carry the source's word sizes
  where the arithmetic could leave them.
- Clocks are arguments. Regular expressions, Aho-Corasick matching, header and user-agent classification, and the
  address and number parsers are arbitrary functions; what is proved holds for all of them.
- `Probes` transcribes the classifier's branches, with each literal pattern list replaced by one boolean that says
  whether the path matches it. It is there for the bound on windows that `Pipeline.EventWindow` needs; beyond that
  only the order of methods by harshness is proved of it.
- A sweep in `Strikes` and `Pipeline` may cover any part of the addresses and be stamped before operations it comes
  after, as when the source works through its shards while others strike.
- In `Strikes` the flat fields of a record are grouped as three counters, and the three record methods share one body.
- `RuleReader` is no part of the program: it reads the rule's syntax by its own definitions, so that what is proved of
  clauses holds of the text that is pushed.
- `sort_by_key` is a stable insertion sort and `binary_search_by` a recursive bisection.
- In `Crawl` a directive is given by what the crawl does with it. The files a pattern matches below a directory are an
  arbitrary function; the choice of the directory is the source's.
- In `Registry` the methods take, for each listing, whether the log can be opened when a task for it starts; a stored
  task may have ended. The report's `unchanged` field is called `untouched`.

## Model

| member | source | states |
|---|---|---|
| CidrSplit.NextBlockSize | src/geo/lookup.rs:143-151 | the 64-bit size arithmetic yields the largest aligned block that starts at the cursor and ends inside the range |
| CidrSplit.RangeToCidrs | src/geo/lookup.rs:135-160 | the loop ends without overflow, even for the whole address space, with the greedy split of the range |
| CidrSplit.SplitAscending | src/geo/lookup.rs:143-157 | blocks are base-aligned, inside the range, ascending and pairwise disjoint |
| CidrSplit.SplitCoversExactly | src/geo/lookup.rs:135-160 | an address lies in some block exactly when it lies in the range |
| CidrSplit.SplitAbsorbs | src/geo/lookup.rs:143-157 | every aligned block inside the range lies within one emitted block: the blocks are the maximal ones |
| CidrSplit.AtMostTwoOfASize | src/geo/lookup.rs:143-157 | no three blocks have the same size |
| CidrSplit.AtMost62Blocks | src/geo/lookup.rs:135-160 | no range needs more than 62 blocks |
| CidrSplit.SplitIsACover | src/geo/lookup.rs:135-160 | the output is a list of aligned blocks that covers exactly the range |
| CidrSplit.SplitIsMinimal | src/geo/lookup.rs:135-160 | no such list is shorter |
| Cidr.ContainsIsPrefixAgreement | src/storage/cidr.rs:10-42 | prefix lengths beyond the family's width are refused; otherwise same-family membership is agreement on the prefix bits |
| Cidr.MixedFamilyContains | src/storage/cidr.rs:10-17 | an IPv4 block contains an IPv6 address by its low 32 bits |
| Cidr.PrivateBlockContainsV6 | src/storage/cidr.rs:10-17 | 10.0.0.0/8 contains the IPv6 address ::a00:1 |
| Cidr.MixedFamilyContainsV6 | src/storage/cidr.rs:10-17 | an IPv6 block contains an IPv4 address when its number agrees on the prefix bits |
| Cidr.ContainsIsInterval | src/storage/cidr.rs:10-42 | for an aligned block the mask test is interval membership |
| GeoLookup.Load | src/geo/lookup.rs:46-89 | the rows that some line gives, and no others, sorted by start |
| GeoLookup.RowMeaning | src/geo/lookup.rs:46-82 | a row holds the columns of its line, with `??` for a country shorter than two characters |
| GeoLookup.RowExistsIff | src/geo/lookup.rs:46-82 | a line gives a row exactly when it is no comment and has five columns whose addresses and number parse |
| GeoLookup.SortOrders | src/geo/lookup.rs:84-89 | sorting disjoint ranges by start orders them completely and keeps them all |
| GeoLookup.SearchFinds | src/geo/lookup.rs:92-116 | on ordered rows binary search finds the row that holds the address |
| GeoLookup.LookupMeaning | src/geo/lookup.rs:92-116 | lookup returns an ASN exactly when a row of that ASN holds the address |
| GeoLookup.LookupReturnsRow | src/geo/lookup.rs:92-116 | lookup returns the ASN, country and organisation of the row that holds the address, and nothing without one or for IPv6 |
| GeoLookup.CidrsForAsn | src/geo/lookup.rs:124-132 | the blocks of the rows of the ASN, in table order |
| GeoLookup.BlocksForAsnCover | src/geo/lookup.rs:124-132 | those blocks cover exactly the addresses of its rows |
| GeoLookup.ViewsAgree | src/geo/lookup.rs:92-133 | for disjoint rows, an address passes some block's mask exactly when lookup returns that ASN |
| Strikes.IpStrikeTracker.RecordStrike | src/intelligence/strikes.rs:43-132 | one strike updates one counter of one record, through its shard, as on a single flat map, and reports its verdict |
| Strikes.IpStrikeTracker.RecordSharedStrike | src/intelligence/strikes.rs:43-70 | the critical pool, without categories |
| Strikes.IpStrikeTracker.RecordIsolatedStrike | src/intelligence/strikes.rs:72-103 | the isolated pool, one category at a time |
| Strikes.IpStrikeTracker.RecordToolStrike | src/intelligence/strikes.rs:105-132 | the tool pool, without categories |
| Strikes.IpStrikeTracker.SweepShard | src/intelligence/strikes.rs:135-157 | under one lock, drops exactly the records of that shard idle in all three pools |
| Strikes.IpStrikeTracker.CleanupStale | src/intelligence/strikes.rs:134-158 | the shard sweeps together drop exactly the records idle in all three pools |
| Strikes.IpStrikeTracker.ClearIp | src/intelligence/strikes.rs:160-164 | drops exactly one address |
| Strikes.IpStrikeTracker.GetRecord | src/intelligence/strikes.rs:166-170 | the flat map's record |
| Strikes.IpStrikeTracker.Len | src/intelligence/strikes.rs:172-177 | the shard sizes sum to the size of the flat map, for any hash |
| Strikes.SweepMeaning | src/intelligence/strikes.rs:134-158 | a sweep drops a covered record exactly when each of its pools was never hit or hit too long ago, and changes no other |
| Strikes.RunLengthIsLongestSuffix | src/intelligence/strikes.rs:43-132 | the run length is that of the longest history suffix with every gap within the later window and one category |
| Strikes.CountersAreHistories | src/intelligence/strikes.rs:43-132 | without sweeps each counter is min(255, run length) of its own history, untouched by other addresses and pools |
| Strikes.StrikeReportsHistory | src/intelligence/strikes.rs:43-158 | in any disciplined run, also with half-finished sweeps, a strike reaches its threshold exactly when the uncapped run does |
| Strikes.StrikeReportsHistoryUnswept | src/intelligence/strikes.rs:43-132 | the same without sweeps, for any clock |
| Strikes.ResultIgnoresSweeps | src/intelligence/strikes.rs:134-158 | one strike's result is the same in the run with its sweeps removed |
| Strikes.SweepsUnobservable | src/intelligence/strikes.rs:134-158 | with strikes in time order and windows within the idle bound, removing all sweeps, of all or some shards, changes no result |
| Strikes.SweepPlacementIrrelevant | src/intelligence/strikes.rs:134-158 | two runs that differ only in their sweeps report the same |
| Strikes.LongWindowSeesSweep | src/intelligence/strikes.rs:134-158 | for every window longer than the idle time a run in which a sweep is observed |
| Strikes.SweepsUnobservableIff | src/intelligence/strikes.rs:134-158 | sweeps are unobservable in all runs in time order exactly when no window is longer than the idle time |
| Probes.InspectThreat | src/intelligence/probes.rs:710-726 | the bound the window argument rests on: every strike has a threshold from 2 to 15 and a window of 10 or 15 seconds |
| Probes.VerbsOrdered | src/intelligence/probes.rs:710-726 | on any path and status GET and HEAD are treated alike and no harsher than QUERY, and that no harsher than any other method |
| Pipeline.ThreatPipeline.EvaluateThreatDecision | src/intelligence/pipeline.rs:113-164 | a decision becomes one strike or none, and the action its result calls for |
| Pipeline.ThreatPipeline.EvaluateProbe | src/intelligence/pipeline.rs:166-180 | the normalised path is judged; malicious encodings are banned at once |
| Pipeline.ThreatPipeline.EvaluateToolRequest | src/intelligence/pipeline.rs:182-228 | tool requests by method, probe and status, over the tool pool |
| Pipeline.ThreatPipeline.EvaluateRequest | src/intelligence/pipeline.rs:230-286 | immune addresses are allowed, banned ones dropped, others allowed exactly when no ban cause holds; a ban gives the first cause that holds, lasting only for header exploits and referers; exactly which strike was recorded |
| Pipeline.ThreatPipeline.EvaluateSshEvent | src/intelligence/pipeline.rs:307-348 | the same for SSH events: probes are banned, failures are isolated strikes with threshold 5 and a window of 300 seconds |
| Pipeline.RequestDecision | src/intelligence/pipeline.rs:94-286 | the decision function answers every request so, whatever the tracker holds |
| Pipeline.SshDecision | src/intelligence/pipeline.rs:307-348 | and every SSH event |
| Pipeline.TenthToolErrorIsBanned | src/intelligence/pipeline.rs:182-228 | over any chronological run with sweeps, a blocked tool's error answer is banned exactly when it is the tenth or later with no gap over ten seconds |
| Pipeline.FifthSshFailureIsBanned | src/intelligence/pipeline.rs:307-348 | likewise the fifth SSH failure with no gap over 300 seconds, unless web requests of the address have struck the same pool |
| Pipeline.PrivateRanges | src/lib.rs:19-37 | the octet tests are membership in the six CIDR blocks |
| Pipeline.PrivateRangesV6 | src/lib.rs:19-37 | for IPv6, ::1, fc00::/7 and fe80::/10 |
| Pipeline.EventWindow | src/intelligence/pipeline.rs:333-339 | every strike the pipeline records is stamped with the event's time and has a window of at most 300 seconds |
| Pipeline.DaemonSweepsUnobservable | src/daemon.rs:138-145 | the daemon's sweeps, shard by shard between other events, change no action on any chronological run of requests and SSH events |
| Pipeline.BuildPipelineFromStore | src/engine/pipeline.rs:8-64 | the policy holds exactly the parsed members of each table |
| Pipeline.PolicyMeaning | src/engine/pipeline.rs:8-64 | membership in each set of the policy is membership in its table; an address is banned when some ban is for it |
| Pipeline.MatchedRequestsAreStopped | src/cloudflare/expression.rs:25-130 | whatever the rule matches, a pipeline from the same snapshot drops or bans, private and whitelisted addresses aside |
| Pipeline.TextMatchesIff | src/cloudflare/expression.rs:25-166 | without quotes in regions, the text of the rule, read on its own terms, matches exactly what its clauses do |
| Pipeline.MatchedByTextAreStopped | src/cloudflare/expression.rs:25-166 | a request that the text matches is dropped or banned by the pipeline |
| Pipeline.LaterBansFirst | src/cloudflare/worker.rs:76-86 | an address only earlier bans name is in the rule only with all addresses of the later bans |
| Pipeline.UncutIffFits | src/cloudflare/expression.rs:25-62 | nothing is cut from the rule exactly when the whole rule, printed, is within the budget |
| Pipeline.UncutRuleIsExact | src/intelligence/pipeline.rs:94-111 | a rule that fits whole matches only what the pipeline stops by address or ASN, and misses exactly the restricted ASNs when no region is allowed |
| Pipeline.RuleAgreesIff | src/cloudflare/expression.rs:64-90 | rule and pipeline agree on all addresses and ASNs exactly when a region is allowed, or every restricted ASN is blocked, or every address is banned |
| Pipeline.RestrictedWithoutRegions | src/cloudflare/expression.rs:64-68 | with one restricted ASN and nothing else the rule is empty, and the pipeline bans that ASN |
| Escalation.EscalationEngine.RecordOffense | src/engine/escalation.rs:74-125 | the answer and the new tally of the address are those of the step `NthBanTier` is about; every other address keeps its own |
| Escalation.AddressesIndependent | src/engine/escalation.rs:74-125 | over any run each address is answered as if only its own calls were made |
| Escalation.EntryMeaning | src/engine/escalation.rs:95-100 | a running count is the number of unbanned offences in the window anchored at the first |
| Escalation.BanIsBacked | src/engine/escalation.rs:95-115 | a counted ban closes max_retry offences since the last ban, within find_time of the anchor |
| Escalation.ConsecutiveOffencesBan | src/engine/escalation.rs:95-125 | 2 * max_retry - 2 consecutive offences within find_time contain one that bans |
| Escalation.GuaranteeAmongOthers | src/engine/escalation.rs:74-125 | the same for an address whose calls are interleaved with others |
| Escalation.GuaranteeIsTight | src/engine/escalation.rs:95-125 | one offence fewer is not enough, for every max_retry from 2 |
| Escalation.NthBanTier | src/engine/escalation.rs:80-124 | every ban names the address, time and reason of its offence; the n-th counted one has tier min(n - 1, last tier) and ends that tier's duration later, or never; instant bans have the last tier, never end and do not count |
| Escalation.NthBanAmongOthers | src/engine/escalation.rs:74-125 | the same for an address whose calls are interleaved with others |
| Expression.SelectAsns | src/cloudflare/expression.rs:92-118 | the backward walk takes the longest list suffix that fits |
| Expression.BuildBlockedAsnsClause | src/cloudflare/expression.rs:92-130 | the clause holds that suffix in list order, fits, and one more ASN would not |
| Expression.PackIps | src/cloudflare/expression.rs:142-166 | the longest prefix of addresses that fits |
| Expression.RenderExpression | src/cloudflare/expression.rs:25-62 | text and address list are the specified selection, within the budget |
| Expression.SelectedFits | src/cloudflare/expression.rs:25-62 | for every budget and input the selection fits |
| Expression.AsnCountThreshold | src/cloudflare/expression.rs:92-130 | after the regional clause, exactly the suffixes up to the chosen one fit |
| Expression.IpCountThreshold | src/cloudflare/expression.rs:142-166 | after the chosen clauses, exactly the prefixes up to the chosen one fit |
| Expression.ClausesTotalLenIs | src/cloudflare/expression.rs:132-140 | the length estimate is the exact length of the joined text and the next separator |
| RuleReader.DecimalReads | src/cloudflare/expression.rs:92-118 | a printed number reads back |
| RuleReader.DottedReads | src/cloudflare/expression.rs:142-166 | a printed address reads back |
| RuleReader.RuleReadsIff | src/cloudflare/expression.rs:25-166 | the printed rule reads back as its clauses exactly when no region has a quote in it |
| SyncWorker.SyncedWhenQuiescent | src/cloudflare/worker.rs:61-97 | in every interleaving, when the worker waits with nothing queued or owed and nothing failed or changed unannounced since it read, the recorded rule is that of the current store |
| SyncWorker.SyncedInUndisturbedRuns | src/ipc/handlers.rs:23-83 | in runs without failures and unannounced changes this holds at every quiescent point |
| SyncWorker.PushesNeverExceedSends | src/cloudflare/worker.rs:61-64 | pushes never exceed the notifications taken from the channel |
| SyncWorker.BurstCostsOnePush | src/cloudflare/worker.rs:61-64 | all notifications that reach the worker before it reads cost one push |
| SyncWorker.RecordedWasPushed | src/cloudflare/worker.rs:85-95 | the worker records only what it has pushed with success |
| SyncWorker.NoDeadlock | src/cloudflare/worker.rs:61-97 | unless quiescent the system can move without a new write |
| SyncWorker.QuietRunsAreShort | src/cloudflare/worker.rs:61-97 | once writers stop, the steps left are bounded by a measure of the state |
| SyncWorker.WritersStopThenSynced | src/cloudflare/worker.rs:61-97 | a run whose writers have stopped and that cannot go on is quiescent, and if undisturbed its recorded rule is the current store's |
| SyncWorker.CanSettle | src/cloudflare/worker.rs:61-97 | every run can be continued, undisturbed and without writes, to a quiescent state |
| SyncWorker.CommandsAreSteps | src/ipc/handlers.rs:23-83 | given which table each command writes, every command but the manual sync, and every watcher ban, is a step of the protocol: one that changes the rule notifies, one that does not notify leaves the rule as it is |
| SyncWorker.RecordedRule | src/cloudflare/worker.rs:66-95 | the recorded rule is the renderer's text for the store, within the budget |
| SyncWorker.RecordedText | src/cloudflare/worker.rs:66-86 | that text is the printed rule of the store's tables |
| SyncWorker.RecordedRuleStops | src/cloudflare/worker.rs:66-95 | at a clean quiescent point, a request that the recorded text matches is one the pipeline built from the current store stops |
| Glob.MatchGlob | src/discovery/crawler.rs:422-450 | the backtracking loop terminates and computes the scan |
| Glob.Sound | src/discovery/crawler.rs:422-450 | it accepts only what the pattern means, for every text |
| Glob.Complete | src/discovery/crawler.rs:422-450 | it accepts all of it when the text has no star |
| Glob.StarInTextBreaks | src/discovery/crawler.rs:431-438 | every text with a star is wrongly rejected by some pattern |
| Glob.ExactlyStarFreeTexts | src/discovery/crawler.rs:422-450 | all patterns are decided rightly on a text exactly when it has no star |
| Glob.StarInPatternBreaks | src/discovery/crawler.rs:431-438 | every pattern with a star wrongly rejects some text |
| Glob.ExactlyStarFreePatterns | src/discovery/crawler.rs:422-450 | all texts are decided rightly by a pattern exactly when it has no star |
| Directives.DirectiveLexer.Step | src/discovery/crawler.rs:297-318 | the effect of one character on flags, buffer and directives |
| Directives.ExtractDirectives | src/discovery/crawler.rs:351-366 | the directives of a file, the unterminated last one included |
| Directives.ParseQuotedFormatArg | src/discovery/crawler.rs:253-274 | the unescaped argument, up to its closing quote or the end |
| Directives.ParseUnquotedFormatArg | src/discovery/crawler.rs:276-288 | the text up to the next whitespace or semicolon |
| Directives.TakeFormatArg | src/discovery/crawler.rs:238-249 | one turn of the argument loop, on any body |
| Directives.ParseNginxFormatBody | src/discovery/crawler.rs:235-251 | after any number of turns, the arguments so far and whether the text has run out |
| Directives.EnoughTurns | src/discovery/crawler.rs:235-251 | without a bare semicolon the loop ends with the body, in at most one turn for each character |
| Directives.ReturnsIffNoBareSemicolon | src/discovery/crawler.rs:235-251 | no number of turns empties the text exactly when a semicolon stands outside a quoted argument; otherwise the loop ends with the body |
| Directives.PrintThenExtract | src/discovery/crawler.rs:296-366 | any sequence of printed format directives (quoted and bare arguments, comments inside), other directives without quotes, comments, blanks and opened or closed blocks lexes to the directives in order and nothing else |
| Directives.SeparatorsActInQuotes | src/discovery/crawler.rs:296-349 | within quotes a semicolon ends the directive, a brace drops what came before it and a number sign opens a comment |
| Directives.PrintThenParse | src/discovery/crawler.rs:216-288 | a printed directive, with or without an escape option, parses to its name and the concatenation of its pieces |
| Directives.NameBetweenSemicolons | src/discovery/crawler.rs:216-233 | semicolons around the name are not part of it |
| Directives.PrintExtractParse | src/discovery/crawler.rs:216-366 | the whole trip returns all names and bodies in order, and recognises the other directives as such |
| Directives.BareSemicolonNeverReturns | src/discovery/crawler.rs:216-251 | the parser runs forever exactly on the directives that name a format and have a bare semicolon in the text after the name |
| Directives.QuotedNameNeverReturns | src/discovery/crawler.rs:216-251 | a concrete file whose extracted directive sends the argument loop round forever |
| LogCompile.ExtractVarName | src/parser/nginx.rs:102-124 | the name in braces or the longest bare name, and where it ends |
| LogCompile.ParseFormatSegments | src/parser/nginx.rs:67-100 | the segments of a format body |
| LogCompile.PrintThenCompile | src/parser/nginx.rs:67-124 | printing texts and names, in braces or bare, as a body and compiling it gives them back |
| LogCompile.NamelessDollar | src/parser/nginx.rs:72-89 | a dollar sign that names nothing, bare or before empty braces, begins a text of its own |
| LogCompile.OpenBrace | src/parser/nginx.rs:102-112 | a brace left open takes the rest of the format as the name |
| LogCompile.VariableLookup | src/parser/nginx.rs:126-172 | each variable is found by its names |
| LogCompile.NameLookup | src/parser/nginx.rs:126-172 | and by no others; any other name is kept as ignored |
| LogFormat.FillFields | src/parser/nginx.rs:232-277 | the cursor loop fills the fields with the values of the split, or fails where it fails |
| LogFormat.ParseDelimitedLine | src/parser/nginx.rs:232-383 | no entry exactly for blank lines, mismatches and lines that name no client; otherwise one that says what the captures say |
| LogFormat.SplitExplains | src/parser/nginx.rs:232-277 | a split's literals and values concatenated are the text, with a rest only after a final literal |
| LogFormat.ParsedLineExplained | src/parser/nginx.rs:174-383 | every line that parses is explained by its captures; each field of its entry is that of the last capture of its variable or the default, client and request as the rules of precedence say |
| LogFormat.RenderThenSplit | src/parser/nginx.rs:232-277 | rendered values, each ending where its literal first occurs, are split off again exactly |
| LogFormat.RoundTripIffDelimited | src/parser/nginx.rs:232-277 | without adjacent variables, rendered values come back from the split exactly when each literal first occurs where the value before it ends |
| LogFormat.RenderedLineParses | src/parser/nginx.rs:232-383 | such a line, with any line ends, parses to an entry that says what those values say, or to none if they name no client |
| LogFormat.EntryMeaning | src/parser/nginx.rs:174-383 | the entry built from captures says what they say; there is none exactly when they name no client |
| LogFormat.ClientRuleDecides | src/parser/nginx.rs:317-383 | the rule of precedence for the client leaves no choice |
| LogFormat.AdjacentVariableTakesWord | src/parser/nginx.rs:253-262 | a variable directly followed by another takes the text up to the next space |
| Crawl.CrawlerState.ProcessDirective | src/discovery/crawler.rs:114-135 | what one directive adds to queue, formats and log lists |
| Crawl.NextFile | src/discovery/crawler.rs:36-60 | one turn keeps the loop's invariant and lowers (unvisited files, queue length) |
| Crawl.CrawlNginxConfigTree | src/discovery/crawler.rs:17-60 | on a finite set of files, cyclic or aliased, the crawl ends; it visited the crawl order and gathered what its files say |
| Crawl.CrawlOrderUnique | src/discovery/crawler.rs:29-60 | that order is unique: breadth first, each file by the first path queued for it |
| Crawl.ProcessedAtMostOnce | src/discovery/crawler.rs:36-40 | no canonical file is processed twice |
| Crawl.ProcessedAreReachable | src/discovery/crawler.rs:29-60 | only files on a chain of includes from the root are processed, in any tree |
| Crawl.CrawlIsClosed | src/discovery/crawler.rs:114-135 | whatever a processed file includes is processed |
| Crawl.VisitsExactlyTheReachable | src/discovery/crawler.rs:29-60 | the visited files are exactly the reachable ones if and only if no other reachable path of a processed file leads to a file missed |
| Crawl.IdentityVisitsTheReachable | src/discovery/crawler.rs:29-60 | they are where the reachable paths of one file include the same files |
| Crawl.LocalFallbackVisitsTheReachable | src/discovery/crawler.rs:368-378 | they are where every reachable file that takes the directory fallback has its reachable paths in one directory |
| Crawl.SoleIncludersVisitIff | src/discovery/crawler.rs:29-60 | where no file is included from two files, they are exactly when the first path of each file includes all its other paths do |
| Crawl.AliasesCanHideFiles | src/discovery/crawler.rs:368-378 | a concrete configuration in which the fallback leads to a file only from the second path, and the crawl misses it |
| Crawl.FormatsMeaning | src/discovery/crawler.rs:17-19 | a format has the body of its last definition, and `combined` is always there |
| Crawl.ErrorLogsMeaning | src/discovery/crawler.rs:128-134 | error logs are the ones mentioned, each once |
| Crawl.ErrorLogsInOrder | src/discovery/crawler.rs:128-134 | in order of first mention |
| Crawl.AccessLogsMeaning | src/discovery/crawler.rs:124-127 | access logs come in the order of their statements, with the path and format each names |
| Crawl.ResolveAccessLogs | src/discovery/crawler.rs:72-85 | one entry for each mentioned path, in order of first mention and with that mention's format |
| Crawl.KindMeaning | src/discovery/crawler.rs:87-102 | the kind of a log is that of the last body of its format, `combined` if it names none or an undefined `main`, and the fallback for any other undefined name |
| Crawl.ResolvedKinds | src/discovery/crawler.rs:72-102 | after a crawl each log has the kind its first mention calls for among the formats of all files |
| Normalize.DecodeAndCollapse | src/intelligence/normalize.rs:39-65 | the loop computes unescaping followed by collapsing |
| Normalize.DecodedIsNormal | src/intelligence/normalize.rs:20-65 | no backslash, no adjacent slashes and none of the six escapes is left |
| Normalize.NormalFormIffFixed | src/intelligence/normalize.rs:20-65 | the fixed points of decoding are exactly the texts without those |
| Normalize.DecodeIdempotent | src/intelligence/normalize.rs:39-65 | decoding twice is decoding once |
| Normalize.RespellingInvisible | src/intelligence/normalize.rs:20-65 | respelling a separator as any run of separators, in any context, changes nothing |
| Normalize.DotRespellingInvisible | src/intelligence/normalize.rs:20-65 | respelling a dot, in any context, changes nothing |
| Normalize.SeparatorsNormalizeAlike | src/intelligence/normalize.rs:67-82 | the whole normaliser cannot tell two spellings of a separator apart |
| Normalize.DotsNormalizeAlike | src/intelligence/normalize.rs:67-82 | nor two spellings of a dot |
| Normalize.MaliciousMeaning | src/intelligence/normalize.rs:10-18 | malicious is exactly what has a null byte or line break, raw or escaped |
| Normalize.DecodingAddsNothingMalicious | src/intelligence/normalize.rs:10-18 | a malicious pattern in the result was in the input |
| Normalize.FastPathIsSlowPath | src/intelligence/normalize.rs:67-82 | the borrowed path returns what decoding would |
| Normalize.NormalizeMeaning | src/intelligence/normalize.rs:67-82 | malicious as written is rejected, everything else becomes its normal form |
| Calendar.DateTimeUnique | src/ipc/datetime.rs:1-22 | a second has one calendar date and time |
| Calendar.ClosedFormCorrect | src/ipc/datetime.rs:1-22 | the closed form gives it for every 64-bit count, with month and day in range |
| Calendar.TakeYears | src/geo/downloader.rs:21-30 | the year loop leaves the year of the day and its day of the year |
| Calendar.TakeMonths | src/geo/downloader.rs:32-50 | the month loop leaves the month and its day |
| Calendar.LoopForm | src/geo/downloader.rs:8-50 | the loops give the same date and time as the closed form |
| Registry.NginxWatcherRegistry.PruneMissing | src/engine/registry.rs:88-100 | exactly the undiscovered watchers are dropped, their tasks aborted and counted; every other task, running or ended, stays as it was |
| Registry.NginxWatcherRegistry.ReconcileSingleLog | src/engine/registry.rs:102-146 | a task is started only for a new path or format, with a new handle, and then runs exactly if the log opens; no other task changes |
| Registry.NginxWatcherRegistry.Reconcile | src/engine/registry.rs:64-86 | which watchers' tasks run afterwards, from which ran before and which logs opened; all other tasks are untouched, so none leaks; watchers of unchanged format keep their task |
| Registry.NginxWatcherRegistry.AbortAll | src/engine/registry.rs:57-62 | no watcher and none of its tasks is left, all others run on |
| Registry.WatchesExactlyTheDiscovered | src/engine/registry.rs:64-86 | the watched paths are the discovered ones, each with its last listed format |
| Registry.ReportBalances | src/engine/registry.rs:64-146 | added, updated and unchanged sum to the list length; added are the new paths, removed the missing ones; the sizes balance |
| Registry.SecondReconciliation | src/engine/registry.rs:64-146 | a second reconciliation reports only unchanged logs exactly when no path is listed with two formats |
| Registry.KeepsStatus | src/engine/registry.rs:102-146 | over a whole list, a watcher for which no listing starts a task runs exactly if it ran |
| Registry.LastStartDecides | src/engine/registry.rs:102-146 | otherwise its task runs exactly if the log opened at the last listing that started one |
| Registry.StatusIsForGood | src/engine/registry.rs:64-146 | over any number of reconciliations, a path listed with one format keeps its task or the lack of one |
| Registry.MissingLogStaysUnwatched | src/engine/registry.rs:108-145 | a log missing at first and present later is reported added, then unchanged, and has no running task |

## Left out

- Process calls (nft, systemctl, journalctl), HTTP clients, the socket server and file tailing: effects outside the program.
- redb transactions, JSON and TOML encoding: the store is a value with atomic writes.
- The text side of addresses and CIDR blocks (`parse_cidr` splitting its string, `range_to_cidrs` printing one), and the bytes of formatted dates with their weekday name.
- JSON log lines, `CompiledLogFormat::compile`'s choice between JSON and delimited formats, and the error-log parser.
- Orphan-log discovery, include-pattern expansion over directories, and log-path resolution.
- `src/geo/downloader.rs` beyond `format_http_date`, self-update, and the command line.
- Lock poisoning, memory allocation, and strikes stamped out of time order by concurrent requests; what happens under one shard's lock is one step.
- Pre-1970 dates: the era's negative branch cannot be taken for an unsigned second count.
- Directives.ParseNginxFormatBody: stops after a given number of turns, because the source's loop has none and may not return; `Directives.EnoughTurns` shows that the bound changes nothing where it does.
- SyncWorker.SyncedWhenQuiescent: expiry of bans, configuration reloads and manual syncs send no notification, so what they change is recorded only at the next round.
- Crawl.CrawlNginxConfigTree: the files and what they include do not change during the crawl.
- SyncWorker.CommandsAreSteps: which table a command writes is taken from the store's writers; the manual sync, which pushes by itself and sends no notification, is the protocol's `Unannounced` step.
