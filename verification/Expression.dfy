/** The firewall-rule compiler (src/cloudflare/expression.rs): a greedy renderer under a byte budget.
    A character stands for one byte. */
module Expression {
  import opened Bits
  import opened Wrappers

  // ----- text

  function Decimal(n: nat): (s: string)
    ensures s != ""
  {
    var digit := ['0' + (n % 10) as char];
    if n < 10 then digit else Decimal(n / 10) + digit
  }

  /** An IPv4 address as the source prints it. */
  function Dotted(ip: u32): (s: string)
    ensures s != ""
  {
    var n := ip as nat;
    Decimal(n / 0x100_0000) + "." + Decimal(n / 0x1_0000 % 0x100) + "."
    + Decimal(n / 0x100 % 0x100) + "." + Decimal(n % 0x100)
  }

  function Join(parts: seq<string>, sep: string): string {
    if parts == [] then ""
    else if |parts| == 1 then parts[0]
    else parts[0] + sep + Join(parts[1..], sep)
  }

  function Decimals(ns: seq<u32>): (s: seq<string>)
    ensures |s| == |ns| && forall i :: 0 <= i < |ns| ==> s[i] == Decimal(ns[i] as nat)
  {
    seq(|ns|, i requires 0 <= i < |ns| => Decimal(ns[i] as nat))
  }

  function Dotteds(ips: seq<u32>): (s: seq<string>)
    ensures |s| == |ips| && forall i :: 0 <= i < |ips| ==> s[i] == Dotted(ips[i])
  {
    seq(|ips|, i requires 0 <= i < |ips| => Dotted(ips[i]))
  }

  function Quoted(rs: seq<string>): seq<string> {
    seq(|rs|, i requires 0 <= i < |rs| => "\"" + rs[i] + "\"")
  }

  // ----- clauses and their printed form

  datatype Clause =
    | Regional(asns: seq<u32>, regions: seq<string>)
    | BlockedAsns(asns: seq<u32>)
    | IpSet(ips: seq<u32>)

  function Print(c: Clause): string {
    match c
    case Regional(asns, regions) =>
      "(ip.src.asnum in {" + Join(Decimals(asns), " ") + "} and not ip.src.country in {"
      + Join(Quoted(regions), " ") + "})"
    case BlockedAsns(asns) => "(ip.src.asnum in {" + Join(Decimals(asns), " ") + "})"
    case IpSet(ips) => "(ip.src in {" + Join(Dotteds(ips), " ") + "})"
  }

  function Printed(cs: seq<Clause>): seq<string> {
    seq(|cs|, i requires 0 <= i < |cs| => Print(cs[i]))
  }

  /** The rule text of a list of clauses. */
  function PrintAll(cs: seq<Clause>): string {
    Join(Printed(cs), " or ")
  }

  // ----- the specification: what a budget admits

  datatype Budget = Budget(maxChars: nat, blockedAsns: seq<u32>, restrictedAsns: seq<u32>, allowedRegions: seq<string>)

  ghost predicate Fits(b: Budget, cs: seq<Clause>) {
    |PrintAll(cs)| <= b.maxChars
  }

  /** The regional clause, when both its lists are non-empty and it fits on its own. */
  ghost function RegionalPart(b: Budget): seq<Clause> {
    var c := Regional(b.restrictedAsns, b.allowedRegions);
    if b.restrictedAsns == [] || b.allowedRegions == [] || !Fits(b, [c]) then [] else [c]
  }

  ghost function Last<T>(s: seq<T>, n: nat): seq<T>
    requires n <= |s|
  {
    s[|s| - n..]
  }

  lemma LastAt<T>(s: seq<T>, n: nat, k: nat)
    requires k < n <= |s|
    ensures |Last(s, n)| == n && Last(s, n)[k] == s[|s| - n + k]
  {
  }

  /** The most blocked ASNs, from the end of the list, that fit after the clauses already chosen. */
  ghost function AsnCount(b: Budget, before: seq<Clause>, n: nat): (k: nat)
    requires n <= |b.blockedAsns|
    ensures k <= n
  {
    if n == 0 || Fits(b, before + [BlockedAsns(Last(b.blockedAsns, n))]) then n else AsnCount(b, before, n - 1)
  }

  /** The most addresses, from the front of the list, that fit after the clauses already chosen. */
  ghost function IpCount(b: Budget, before: seq<Clause>, ips: seq<u32>, n: nat): (k: nat)
    requires n <= |ips|
    ensures k <= n
  {
    if n == 0 || Fits(b, before + [IpSet(ips[..n])]) then n else IpCount(b, before, ips, n - 1)
  }

  ghost function PolicyPart(b: Budget): seq<Clause> {
    var k := AsnCount(b, RegionalPart(b), |b.blockedAsns|);
    RegionalPart(b) + if k == 0 then [] else [BlockedAsns(Last(b.blockedAsns, k))]
  }

  ghost function IncludedIps(b: Budget, ips: seq<u32>): seq<u32> {
    ips[..IpCount(b, PolicyPart(b), ips, |ips|)]
  }

  /** The clauses of the rendered rule. */
  ghost function Selected(b: Budget, ips: seq<u32>): seq<Clause> {
    PolicyPart(b) + if IncludedIps(b, ips) == [] then [] else [IpSet(IncludedIps(b, ips))]
  }

  // ----- lengths

  lemma {:induction false} JoinSnoc(parts: seq<string>, x: string, sep: string)
    ensures Join(parts + [x], sep) == if parts == [] then x else Join(parts, sep) + sep + x
  {
    if parts != [] {
      assert (parts + [x])[1..] == parts[1..] + [x];
      JoinSnoc(parts[1..], x, sep);
      if |parts| == 1 {
        assert parts[1..] + [x] == [x];
      }
    }
  }

  lemma PrintAllSnoc(cs: seq<Clause>, c: Clause)
    ensures PrintAll(cs + [c]) == if cs == [] then Print(c) else PrintAll(cs) + " or " + Print(c)
  {
    assert Printed(cs + [c]) == Printed(cs) + [Print(c)];
    JoinSnoc(Printed(cs), Print(c), " or ");
  }

  /** The bytes a further clause costs besides its content. */
  function Separator(cs: seq<Clause>): nat {
    if cs == [] then 0 else 4
  }

  ghost predicate AllNonEmpty(parts: seq<string>) {
    forall i :: 0 <= i < |parts| ==> parts[i] != ""
  }

  lemma {:induction false} JoinGrows(parts: seq<string>, i: nat, j: nat)
    requires i <= j <= |parts| && AllNonEmpty(parts)
    ensures |Join(parts[..i], " ")| <= |Join(parts[..j], " ")|
    ensures j > 0 ==> |Join(parts[..j], " ")| >= 1
    decreases j
  {
    if j > 0 {
      assert parts[..j] == parts[..j - 1] + [parts[j - 1]];
      JoinSnoc(parts[..j - 1], parts[j - 1], " ");
      if i < j {
        JoinGrows(parts, i, j - 1);
      } else {
        JoinGrows(parts, j - 1, j - 1);
      }
    }
  }

  lemma {:induction false} JoinSuffixGrows(parts: seq<string>, i: nat, j: nat)
    requires i <= j <= |parts| && AllNonEmpty(parts)
    ensures |Join(Last(parts, i), " ")| <= |Join(Last(parts, j), " ")|
    ensures j > 0 ==> |Join(Last(parts, j), " ")| >= 1
    decreases j
  {
    if j > 0 {
      assert Last(parts, j)[1..] == Last(parts, j - 1) && Last(parts, j)[0] == parts[|parts| - j];
      if i < j {
        JoinSuffixGrows(parts, i, j - 1);
      } else {
        JoinSuffixGrows(parts, j - 1, j - 1);
      }
    }
  }

  lemma IpSetLength(before: seq<Clause>, ips: seq<u32>, n: nat)
    requires n <= |ips|
    ensures |PrintAll(before + [IpSet(ips[..n])])|
            == |PrintAll(before)| + Separator(before) + 14 + |Join(Dotteds(ips)[..n], " ")|
  {
    PrintAllSnoc(before, IpSet(ips[..n]));
    assert Dotteds(ips[..n]) == Dotteds(ips)[..n];
  }

  lemma AsnSetLength(before: seq<Clause>, asns: seq<u32>, n: nat)
    requires n <= |asns|
    ensures |PrintAll(before + [BlockedAsns(Last(asns, n))])|
            == |PrintAll(before)| + Separator(before) + 20 + |Join(Last(Decimals(asns), n), " ")|
  {
    PrintAllSnoc(before, BlockedAsns(Last(asns, n)));
    assert Decimals(Last(asns, n)) == Last(Decimals(asns), n);
  }

  lemma IpCostGrows(before: seq<Clause>, ips: seq<u32>, i: nat, j: nat)
    requires i <= j <= |ips|
    ensures |PrintAll(before + [IpSet(ips[..i])])| <= |PrintAll(before + [IpSet(ips[..j])])|
  {
    IpSetLength(before, ips, i);
    IpSetLength(before, ips, j);
    JoinGrows(Dotteds(ips), i, j);
  }

  lemma AsnCostGrows(before: seq<Clause>, asns: seq<u32>, i: nat, j: nat)
    requires i <= j <= |asns|
    ensures |PrintAll(before + [BlockedAsns(Last(asns, i))])| <= |PrintAll(before + [BlockedAsns(Last(asns, j))])|
  {
    AsnSetLength(before, asns, i);
    AsnSetLength(before, asns, j);
    JoinSuffixGrows(Decimals(asns), i, j);
  }

  lemma FewerIpsFit(b: Budget, before: seq<Clause>, ips: seq<u32>, i: nat, j: nat)
    requires i <= j <= |ips| && Fits(b, before + [IpSet(ips[..j])])
    ensures Fits(b, before + [IpSet(ips[..i])])
  {
    IpCostGrows(before, ips, i, j);
  }

  lemma FewerAsnsFit(b: Budget, before: seq<Clause>, i: nat, j: nat)
    requires i <= j <= |b.blockedAsns| && Fits(b, before + [BlockedAsns(Last(b.blockedAsns, j))])
    ensures Fits(b, before + [BlockedAsns(Last(b.blockedAsns, i))])
  {
    AsnCostGrows(before, b.blockedAsns, i, j);
  }

  // ----- the counts are exact thresholds

  /** Exactly the prefixes of at most `IpCount` addresses fit. */
  lemma {:induction false} IpCountThreshold(b: Budget, before: seq<Clause>, ips: seq<u32>, n: nat, j: nat)
    requires 0 < j <= n <= |ips|
    ensures Fits(b, before + [IpSet(ips[..j])]) <==> j <= IpCount(b, before, ips, n)
    decreases n
  {
    if Fits(b, before + [IpSet(ips[..n])]) {
      FewerIpsFit(b, before, ips, j, n);
    } else if j < n {
      IpCountThreshold(b, before, ips, n - 1, j);
    }
  }

  /** Exactly the suffixes of at most `AsnCount` ASNs fit. */
  lemma {:induction false} AsnCountThreshold(b: Budget, before: seq<Clause>, n: nat, j: nat)
    requires 0 < j <= n <= |b.blockedAsns|
    ensures Fits(b, before + [BlockedAsns(Last(b.blockedAsns, j))]) <==> j <= AsnCount(b, before, n)
    decreases n
  {
    if Fits(b, before + [BlockedAsns(Last(b.blockedAsns, n))]) {
      FewerAsnsFit(b, before, j, n);
    } else if j < n {
      AsnCountThreshold(b, before, n - 1, j);
    }
  }

  lemma {:induction false} AsnCountFits(b: Budget, before: seq<Clause>, n: nat)
    requires n <= |b.blockedAsns|
    ensures var k := AsnCount(b, before, n); k > 0 ==> Fits(b, before + [BlockedAsns(Last(b.blockedAsns, k))])
  {
    if n > 0 && !Fits(b, before + [BlockedAsns(Last(b.blockedAsns, n))]) {
      AsnCountFits(b, before, n - 1);
    }
  }

  lemma {:induction false} IpCountFits(b: Budget, before: seq<Clause>, ips: seq<u32>, n: nat)
    requires n <= |ips|
    ensures var k := IpCount(b, before, ips, n); k > 0 ==> Fits(b, before + [IpSet(ips[..k])])
  {
    if n > 0 && !Fits(b, before + [IpSet(ips[..n])]) {
      IpCountFits(b, before, ips, n - 1);
    }
  }

  lemma PolicyFits(b: Budget)
    ensures Fits(b, PolicyPart(b))
  {
    var reg := RegionalPart(b);
    AsnCountFits(b, reg, |b.blockedAsns|);
    assert reg + [] == reg;
  }

  /** The rendered rule never exceeds the budget. */
  lemma SelectedFits(b: Budget, ips: seq<u32>)
    ensures |PrintAll(Selected(b, ips))| <= b.maxChars
  {
    PolicyFits(b);
    IpCountFits(b, PolicyPart(b), ips, |ips|);
    assert PolicyPart(b) + [] == PolicyPart(b);
  }

  // ----- the code

  function BuildRegionalClause(b: Budget, maxBudget: nat): Option<Clause> {
    if b.restrictedAsns == [] || b.allowedRegions == [] then None
    else
      var clause := Regional(b.restrictedAsns, b.allowedRegions);
      if |Print(clause)| <= maxBudget then Some(clause) else None
  }

  function ClausesTotalLen(clauses: seq<string>): nat {
    if clauses == [] then 0
    else SumLengths(clauses) + (|clauses| - 1) * |" or "| + |" or "|
  }

  function SumLengths(clauses: seq<string>): nat {
    if clauses == [] then 0 else |clauses[0]| + SumLengths(clauses[1..])
  }

  function Reversed<T>(s: seq<T>): seq<T> {
    if s == [] then [] else Reversed(s[1..]) + [s[0]]
  }

  lemma {:induction false} ReversedSnoc<T>(s: seq<T>, x: T)
    ensures Reversed(s + [x]) == [x] + Reversed(s)
  {
    if s != [] {
      assert (s + [x])[1..] == s[1..] + [x];
      ReversedSnoc(s[1..], x);
    }
  }

  /** Back to front. */
  lemma {:induction false} ReversedAt<T>(s: seq<T>, k: nat)
    requires k < |s|
    ensures |Reversed(s)| == |s| && Reversed(s)[k] == s[|s| - 1 - k]
  {
    if |s| > 1 {
      ReversedAt(s[1..], if k < |s| - 1 then k else 0);
    }
  }

  /** Whoever reads back to front and meets an element of the first part has read all of the last. */
  lemma ReversedPrefix<T>(first: seq<T>, last: seq<T>, read: seq<T>, x: T, y: T)
    requires read <= Reversed(first + last) && x in read && x !in last && y in last
    ensures y in read
  {
    var all := first + last;
    var i :| 0 <= i < |read| && read[i] == x;
    var k :| 0 <= k < |last| && last[k] == y;
    ReversedAt(all, 0);
    ReversedAt(all, i);
    ReversedAt(all, |last| - 1 - k);
    assert read[|last| - 1 - k] == y;
  }

  lemma AsnClauseLength(asns: seq<u32>, n: nat)
    requires n <= |asns|
    ensures |Print(BlockedAsns(Last(asns, n)))| == 20 + |Join(Last(Decimals(asns), n), " ")|
    ensures n > 0 ==> |Join(Last(Decimals(asns), n), " ")| >= 1
  {
    assert Decimals(Last(asns, n)) == Last(Decimals(asns), n);
    JoinSuffixGrows(Decimals(asns), n, n);
  }

  lemma LastGrows(parts: seq<string>, n: nat)
    requires n < |parts| && parts[|parts| - n - 1] != ""
    ensures Last(parts, n + 1) == [parts[|parts| - n - 1]] + Last(parts, n)
    ensures |Join(Last(parts, n + 1), " ")|
            == |parts[|parts| - n - 1]| + if n == 0 then 0 else 1 + |Join(Last(parts, n), " ")|
  {
    assert Last(parts, n + 1)[1..] == Last(parts, n);
  }

  /** The backward walk: selects ASNs while the next one fits. */
  method SelectAsns(asns: seq<u32>, contentBudget: nat) returns (selected: seq<string>)
    ensures |selected| <= |asns| && Reversed(selected) == Last(Decimals(asns), |selected|)
    ensures |Join(Last(Decimals(asns), |selected|), " ")| <= contentBudget
    ensures |selected| < |asns| ==> |Join(Last(Decimals(asns), |selected| + 1), " ")| > contentBudget
  {
    ghost var all := Decimals(asns);
    selected := [];
    var currentLen := 0;
    var i := |asns|;
    while i > 0
      invariant i == |asns| - |selected| && |selected| <= |asns|
      invariant Reversed(selected) == Last(all, |selected|)
      invariant currentLen == |Join(Last(all, |selected|), " ")| <= contentBudget
      invariant |selected| > 0 ==> currentLen > 0
    {
      var s := Decimal(asns[i - 1] as nat);
      var addedLen := if currentLen == 0 then |s| else 1 + |s|;
      LastGrows(all, |selected|);
      if currentLen + addedLen > contentBudget {
        break;
      }
      ReversedSnoc(selected, s);
      currentLen := currentLen + addedLen;
      selected := selected + [s];
      i := i - 1;
    }
  }

  /** The clause of the last `taken` ASNs fits, and that of one more would not. */
  ghost predicate LongestSuffix(asns: seq<u32>, maxBudget: nat, taken: nat) {
    && taken <= |asns|
    && (taken > 0 ==> |Print(BlockedAsns(Last(asns, taken)))| <= maxBudget)
    && (taken < |asns| ==> |Print(BlockedAsns(Last(asns, taken + 1)))| > maxBudget)
  }

  ghost predicate HoldsSuffix(clause: Option<string>, asns: seq<u32>, taken: nat)
    requires taken <= |asns|
  {
    clause == if taken == 0 then None else Some(Print(BlockedAsns(Last(asns, taken))))
  }

  /** The clause holds the longest suffix that fits, in list order. */
  method BuildBlockedAsnsClause(asns: seq<u32>, maxBudget: nat) returns (clause: Option<string>)
    ensures exists taken :: LongestSuffix(asns, maxBudget, taken) && HoldsSuffix(clause, asns, taken)
  {
    var overhead := |"(ip.src.asnum in {})"|;
    if |asns| == 0 || maxBudget <= overhead {
      if |asns| > 0 { AsnClauseLength(asns, 1); }
      assert LongestSuffix(asns, maxBudget, 0) && HoldsSuffix(None, asns, 0);
      return None;
    }
    var selected := SelectAsns(asns, maxBudget - overhead);
    ghost var taken := |selected|;
    AsnClauseText(asns, taken, selected);
    AsnClauseLength(asns, taken);
    if taken < |asns| { AsnClauseLength(asns, taken + 1); }
    assert LongestSuffix(asns, maxBudget, taken);
    if selected == [] {
      assert HoldsSuffix(None, asns, taken);
      return None;
    }
    clause := Some("(ip.src.asnum in {" + Join(Reversed(selected), " ") + "})");
    assert HoldsSuffix(clause, asns, taken);
  }

  lemma AsnClauseText(asns: seq<u32>, taken: nat, selected: seq<string>)
    requires taken <= |asns| && Reversed(selected) == Last(Decimals(asns), taken)
    ensures Print(BlockedAsns(Last(asns, taken))) == "(ip.src.asnum in {" + Join(Reversed(selected), " ") + "})"
  {
    assert Decimals(Last(asns, taken)) == Last(Decimals(asns), taken);
  }

  /** The addresses before index `i`, printed. */
  function Packed(ips: seq<u32>, i: nat): string
    requires i <= |ips|
  {
    Join(Dotteds(ips[..i]), " ")
  }

  lemma DottedsSnoc(ips: seq<u32>, i: nat)
    requires i < |ips|
    ensures ips[..i + 1] == ips[..i] + [ips[i]]
    ensures Packed(ips, i + 1) == if i == 0 then Dotted(ips[0]) else Packed(ips, i) + " " + Dotted(ips[i])
  {
    assert ips[..i + 1] == ips[..i] + [ips[i]];
    assert Dotteds(ips[..i + 1]) == Dotteds(ips[..i]) + [Dotted(ips[i])];
    JoinSnoc(Dotteds(ips[..i]), Dotted(ips[i]), " ");
  }

  /** Appends addresses while the next one fits: the longest prefix whose text stays within the budget. */
  method PackIps(ips: seq<u32>, remainingBudget: nat) returns (text: string, included: seq<u32>)
    ensures |included| <= |ips| && included == ips[..|included|]
    ensures text == Join(Dotteds(included), " ") && |text| <= remainingBudget
    ensures |included| < |ips| ==> |Join(Dotteds(ips[..|included| + 1]), " ")| > remainingBudget
  {
    included, text := [], "";
    for i := 0 to |ips|
      invariant included == ips[..i] && text == Packed(ips, i) && |text| <= remainingBudget
      invariant i > 0 ==> text != ""
    {
      DottedsSnoc(ips, i);
      var ipStr := Dotted(ips[i]);
      var addedLen := if text == "" then |ipStr| else 1 + |ipStr|;
      if |text| + addedLen > remainingBudget {
        break;
      }
      if text != "" {
        text := text + " ";
      }
      text := text + ipStr;
      included := included + [ips[i]];
    }
  }

  lemma {:induction false} SumLengthsIsJoin(clauses: seq<string>)
    requires clauses != []
    ensures SumLengths(clauses) + (|clauses| - 1) * 4 == |Join(clauses, " or ")|
  {
    if |clauses| == 1 {
      assert clauses[1..] == [];
    } else {
      SumLengthsIsJoin(clauses[1..]);
    }
  }

  lemma ClausesTotalLenIs(cs: seq<Clause>)
    ensures ClausesTotalLen(Printed(cs)) == |PrintAll(cs)| + Separator(cs)
  {
    if cs != [] { SumLengthsIsJoin(Printed(cs)); }
  }

  /** The regional and blocked-ASN clauses. */
  method RenderPolicy(b: Budget) returns (clauses: seq<string>)
    ensures clauses == Printed(PolicyPart(b))
  {
    clauses := [];
    var regional := BuildRegionalClause(b, b.maxChars);
    RegionalIs(b);
    if regional.Some? {
      clauses := clauses + [Print(regional.value)];
    }
    assert clauses == Printed(RegionalPart(b));
    ClausesTotalLenIs(RegionalPart(b));
    var currentLen := ClausesTotalLen(clauses);
    var asnBudget := SaturatingSub(b.maxChars, currentLen);
    var asnClause := BuildBlockedAsnsClause(b.blockedAsns, asnBudget);
    PolicyIs(b, asnBudget, asnClause);
    if asnClause.Some? {
      clauses := clauses + [asnClause.value];
    }
  }

  lemma PolicyIs(b: Budget, asnBudget: nat, clause: Option<string>)
    requires asnBudget == SaturatingSub(b.maxChars, |PrintAll(RegionalPart(b))| + Separator(RegionalPart(b)))
    requires exists taken :: LongestSuffix(b.blockedAsns, asnBudget, taken) && HoldsSuffix(clause, b.blockedAsns, taken)
    ensures Printed(PolicyPart(b)) == Printed(RegionalPart(b)) + if clause.Some? then [clause.value] else []
  {
    var taken :| LongestSuffix(b.blockedAsns, asnBudget, taken) && HoldsSuffix(clause, b.blockedAsns, taken);
    RegionalIs(b);
    AsnCountIs(b, RegionalPart(b), taken, asnBudget);
    PrintedPolicy(b, RegionalPart(b), taken, clause);
  }

  lemma PrintedPolicy(b: Budget, reg: seq<Clause>, taken: nat, clause: Option<string>)
    requires taken <= |b.blockedAsns| && HoldsSuffix(clause, b.blockedAsns, taken)
    ensures Printed(reg + if taken == 0 then [] else [BlockedAsns(Last(b.blockedAsns, taken))])
         == Printed(reg) + if clause.Some? then [clause.value] else []
  {
  }

  lemma RegionalIs(b: Budget)
    ensures RegionalPart(b) == match BuildRegionalClause(b, b.maxChars) case Some(c) => [c] case None => []
    ensures Fits(b, RegionalPart(b))
  {
    var c := Regional(b.restrictedAsns, b.allowedRegions);
    assert Printed([c]) == [Print(c)];
  }

  /** The whole renderer: its text and address list are the specified ones, within the budget. */
  method RenderExpression(b: Budget, ips: seq<u32>) returns (expr: string, included: seq<u32>)
    ensures expr == PrintAll(Selected(b, ips)) && included == IncludedIps(b, ips)
    ensures |expr| <= b.maxChars
  {
    var clauses := RenderPolicy(b);
    ghost var policy := PolicyPart(b);
    PolicyFits(b);
    SelectedFits(b, ips);
    var prefixStatic := if clauses == [] then "" else Join(clauses, " or ") + " or ";
    var overhead := |prefixStatic| + |"(ip.src in {})"|;
    var remaining := SaturatingSub(b.maxChars, overhead);
    var text;
    text, included := PackIps(ips, remaining);
    IpCountIs(b, policy, ips, |included|, remaining);
    expr := if included != [] then
              (if clauses == [] then "(ip.src in {" + text + "})" else prefixStatic + "(ip.src in {" + text + "})")
            else if clauses != [] then Join(clauses, " or ")
            else "";
    AssembledIs(policy, included);
  }

  lemma AssembledIs(policy: seq<Clause>, included: seq<u32>)
    ensures var before, text := PrintAll(policy), Join(Dotteds(included), " ");
            PrintAll(policy + if included == [] then [] else [IpSet(included)])
            == if included == [] then before
               else if policy == [] then "(ip.src in {" + text + "})"
               else before + " or " + "(ip.src in {" + text + "})"
  {
    PrintAllSnoc(policy, IpSet(included));
    assert policy + [] == policy;
  }

  lemma AsnCountIs(b: Budget, reg: seq<Clause>, n: nat, asnBudget: nat)
    requires Fits(b, reg) && n <= |b.blockedAsns|
    requires asnBudget == SaturatingSub(b.maxChars, |PrintAll(reg)| + Separator(reg))
    requires LongestSuffix(b.blockedAsns, asnBudget, n)
    ensures n == AsnCount(b, reg, |b.blockedAsns|)
  {
    if n > 0 {
      AsnClauseLength(b.blockedAsns, n);
      AsnSetLength(reg, b.blockedAsns, n);
      AsnCountThreshold(b, reg, |b.blockedAsns|, n);
    }
    if n < |b.blockedAsns| {
      AsnClauseLength(b.blockedAsns, n + 1);
      AsnSetLength(reg, b.blockedAsns, n + 1);
      AsnCountThreshold(b, reg, |b.blockedAsns|, n + 1);
    }
  }

  lemma IpFitsIff(b: Budget, policy: seq<Clause>, ips: seq<u32>, n: nat, remaining: nat)
    requires Fits(b, policy) && 0 < n <= |ips|
    requires remaining == SaturatingSub(b.maxChars, |PrintAll(policy)| + Separator(policy) + 14)
    ensures Fits(b, policy + [IpSet(ips[..n])]) <==> |Join(Dotteds(ips[..n]), " ")| <= remaining
  {
    assert Dotteds(ips[..n]) == Dotteds(ips)[..n];
    IpSetLength(policy, ips, n);
    JoinGrows(Dotteds(ips), n, n);
  }

  lemma IpCountIs(b: Budget, policy: seq<Clause>, ips: seq<u32>, n: nat, remaining: nat)
    requires Fits(b, policy) && n <= |ips|
    requires remaining == SaturatingSub(b.maxChars, |PrintAll(policy)| + Separator(policy) + 14)
    requires |Join(Dotteds(ips[..n]), " ")| <= remaining
    requires n < |ips| ==> |Join(Dotteds(ips[..n + 1]), " ")| > remaining
    ensures n == IpCount(b, policy, ips, |ips|)
  {
    if n > 0 {
      IpFitsIff(b, policy, ips, n, remaining);
      IpCountThreshold(b, policy, ips, |ips|, n);
    }
    if n < |ips| {
      IpFitsIff(b, policy, ips, n + 1, remaining);
      IpCountThreshold(b, policy, ips, |ips|, n + 1);
    }
  }
}
