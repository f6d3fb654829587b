/** Reading the text of a firewall rule (src/cloudflare/expression.rs) the way the firewall would, with readers
    of their own: what the renderer prints reads back as the clauses it was printed from. */
module RuleReader {
  import opened Bits
  import opened Expression
  import opened Text
  import opened Wrappers

  // ----- numbers

  predicate IsDigit(c: char) {
    '0' <= c <= '9'
  }

  predicate AllDigits(s: string) {
    forall i :: 0 <= i < |s| ==> IsDigit(s[i])
  }

  /** The value of a string of digits. */
  function Horner(s: string): nat
    requires AllDigits(s)
  {
    if s == "" then 0 else 10 * Horner(s[..|s| - 1]) + (s[|s| - 1] as nat - '0' as nat)
  }

  function ReadDecimal(s: string): Option<nat> {
    if s != "" && AllDigits(s) then Some(Horner(s)) else None
  }

  lemma {:induction false} DecimalReads(n: nat)
    ensures AllDigits(Decimal(n)) && ReadDecimal(Decimal(n)) == Some(n)
  {
    var last := '0' + (n % 10) as char;
    if n < 10 {
      assert Decimal(n) == [last] && [last][..0] == [];
      assert Horner([]) == 0;
    } else {
      DecimalReads(n / 10);
      var init := Decimal(n / 10);
      assert Decimal(n) == init + [last] && (init + [last])[..|init|] == init;
    }
  }

  // ----- splitting

  /** The words of a list; an empty text has none. */
  function Words(s: string): seq<string> {
    if s == "" then [] else Parts(s, ' ')
  }

  ghost predicate AreWords(ws: seq<string>) {
    forall i :: 0 <= i < |ws| ==> ws[i] != "" && ' ' !in ws[i]
  }

  lemma JoinCons(ws: seq<string>)
    requires |ws| > 1
    ensures Join(ws, " ") == ws[0] + [' '] + Join(ws[1..], " ")
  {
  }

  lemma {:induction false} PartsOfJoin(ws: seq<string>)
    requires ws != [] && AreWords(ws)
    ensures Join(ws, " ") != "" && Parts(Join(ws, " "), ' ') == ws
    decreases |ws|
  {
    if |ws| == 1 {
      PartsCons(ws[0], ' ', "");
    } else {
      JoinCons(ws);
      PartsOfJoin(ws[1..]);
      PartsCons(ws[0], ' ', Join(ws[1..], " "));
      assert ws == [ws[0]] + ws[1..];
    }
  }

  lemma WordsOfJoin(ws: seq<string>)
    requires AreWords(ws)
    ensures Words(Join(ws, " ")) == ws
  {
    if ws != [] {
      PartsOfJoin(ws);
    }
  }

  // ----- addresses

  function Octet(s: string): Option<nat> {
    if ReadDecimal(s).Some? && ReadDecimal(s).value < 0x100 then ReadDecimal(s) else None
  }

  function ReadDotted(s: string): Option<u32> {
    var parts := Parts(s, '.');
    if |parts| != 4 then None
    else
      match (Octet(parts[0]), Octet(parts[1]), Octet(parts[2]), Octet(parts[3]))
      case (Some(a), Some(b), Some(c), Some(d)) => Some((((a * 0x100 + b) * 0x100 + c) * 0x100 + d) as u32)
      case _ => None
  }

  lemma NoneOf(s: string, c: char)
    requires AllDigits(s) && !IsDigit(c)
    ensures c !in s
  {
  }

  lemma FromTheRight(a: string, b: string, c: string, d: string)
    ensures a + "." + b + "." + c + "." + d == a + ['.'] + (b + ['.'] + (c + ['.'] + d))
  {
  }

  lemma FourOf<T>(a: T, b: T, c: T, d: T)
    ensures [a] + ([b] + ([c] + [d])) == [a, b, c, d]
  {
  }

  lemma FourParts(a: string, b: string, c: string, d: string)
    requires AllDigits(a) && AllDigits(b) && AllDigits(c) && AllDigits(d)
    ensures Parts(a + "." + b + "." + c + "." + d, '.') == [a, b, c, d]
  {
    NoneOf(a, '.');
    NoneOf(b, '.');
    NoneOf(c, '.');
    NoneOf(d, '.');
    PartsCons(d, '.', "");
    PartsCons(c, '.', d);
    PartsCons(b, '.', c + ['.'] + d);
    PartsCons(a, '.', b + ['.'] + (c + ['.'] + d));
    FromTheRight(a, b, c, d);
    FourOf(a, b, c, d);
  }

  lemma OctetReads(n: nat)
    requires n < 0x100
    ensures AllDigits(Decimal(n)) && Octet(Decimal(n)) == Some(n)
  {
    DecimalReads(n);
  }

  lemma OctetsMakeAddress(n: nat)
    requires n < 0x1_0000_0000
    ensures n / 0x100_0000 < 0x100
    ensures ((n / 0x100_0000 * 0x100 + n / 0x1_0000 % 0x100) * 0x100 + n / 0x100 % 0x100) * 0x100 + n % 0x100 == n
  {
    assert n / 0x100 / 0x100 == n / 0x1_0000 && n / 0x1_0000 / 0x100 == n / 0x100_0000;
  }

  lemma FourRead(s: string, w: string, x: string, y: string, z: string, a: nat, b: nat, c: nat, d: nat)
    requires Parts(s, '.') == [w, x, y, z]
    requires Octet(w) == Some(a) && Octet(x) == Some(b) && Octet(y) == Some(c) && Octet(z) == Some(d)
    ensures a < 0x100 && b < 0x100 && c < 0x100 && d < 0x100
    ensures ReadDotted(s) == Some((((a * 0x100 + b) * 0x100 + c) * 0x100 + d) as u32)
  {
  }

  lemma OctetsRead(a: nat, b: nat, c: nat, d: nat)
    requires a < 0x100 && b < 0x100 && c < 0x100 && d < 0x100
    ensures ReadDotted(Decimal(a) + "." + Decimal(b) + "." + Decimal(c) + "." + Decimal(d))
         == Some((((a * 0x100 + b) * 0x100 + c) * 0x100 + d) as u32)
  {
    var w, x, y, z := Decimal(a), Decimal(b), Decimal(c), Decimal(d);
    OctetReads(a);
    OctetReads(b);
    OctetReads(c);
    OctetReads(d);
    FourParts(w, x, y, z);
    FourRead(w + "." + x + "." + y + "." + z, w, x, y, z, a, b, c, d);
  }

  /** An address reads back from its printed form. */
  lemma DottedReads(ip: u32)
    ensures ReadDotted(Dotted(ip)) == Some(ip)
  {
    var n := ip as nat;
    OctetsMakeAddress(n);
    OctetsRead(n / 0x100_0000, n / 0x1_0000 % 0x100, n / 0x100 % 0x100, n % 0x100);
  }

  function ReadNumber(s: string): Option<u32> {
    if ReadDecimal(s).Some? && ReadDecimal(s).value < 0x1_0000_0000 then Some(ReadDecimal(s).value as u32) else None
  }

  // ----- lists

  function ReadAll(ws: seq<string>, read: string -> Option<u32>): Option<seq<u32>> {
    if ws == [] then Some([])
    else
      match (read(ws[0]), ReadAll(ws[1..], read))
      case (Some(x), Some(xs)) => Some([x] + xs)
      case _ => None
  }

  lemma {:induction false} ReadAllOf(ws: seq<string>, read: string -> Option<u32>, xs: seq<u32>)
    requires |ws| == |xs| && forall i :: 0 <= i < |ws| ==> read(ws[i]) == Some(xs[i])
    ensures ReadAll(ws, read) == Some(xs)
  {
    if ws != [] {
      ReadAllOf(ws[1..], read, xs[1..]);
      assert xs == [xs[0]] + xs[1..];
    }
  }

  lemma DecimalsRead(ns: seq<u32>)
    ensures AreWords(Decimals(ns)) && ReadAll(Words(Join(Decimals(ns), " ")), ReadNumber) == Some(ns)
  {
    forall i | 0 <= i < |ns| ensures ReadNumber(Decimals(ns)[i]) == Some(ns[i]) && ' ' !in Decimals(ns)[i] {
      DecimalReads(ns[i] as nat);
      NoneOf(Decimal(ns[i] as nat), ' ');
    }
    WordsOfJoin(Decimals(ns));
    ReadAllOf(Decimals(ns), ReadNumber, ns);
  }

  /** A printed address consists of digits and dots. */
  lemma DottedChars(ip: u32)
    ensures forall c :: c in Dotted(ip) ==> IsDigit(c) || c == '.'
  {
    var n := ip as nat;
    DecimalReads(n / 0x100_0000);
    DecimalReads(n / 0x1_0000 % 0x100);
    DecimalReads(n / 0x100 % 0x100);
    DecimalReads(n % 0x100);
  }

  lemma DottedsRead(ips: seq<u32>)
    ensures AreWords(Dotteds(ips)) && ReadAll(Words(Join(Dotteds(ips), " ")), ReadDotted) == Some(ips)
  {
    forall i | 0 <= i < |ips| ensures ReadDotted(Dotteds(ips)[i]) == Some(ips[i]) && ' ' !in Dotteds(ips)[i] {
      DottedReads(ips[i]);
      DottedChars(ips[i]);
    }
    WordsOfJoin(Dotteds(ips));
    ReadAllOf(Dotteds(ips), ReadDotted, ips);
  }

  /** A list of quoted texts, one space apart. */
  function ReadQuotes(s: string): Option<seq<string>>
    decreases |s|
  {
    if s == "" then Some([])
    else if s[0] != '"' then None
    else
      var n := Until(s[1..], '"');
      if n == |s| - 1 then None
      else
        var text, rest := s[1..][..n], s[n + 2..];
        if rest == "" then Some([text])
        else if rest[0] != ' ' || |rest| == 1 then None
        else
          match ReadQuotes(rest[1..])
          case Some(texts) => Some([text] + texts)
          case None => None
  }

  ghost predicate Unquoted(rs: seq<string>) {
    forall i :: 0 <= i < |rs| ==> '"' !in rs[i]
  }

  lemma QuotedCons(rs: seq<string>)
    requires rs != []
    ensures Quoted(rs) == ["\"" + rs[0] + "\""] + Quoted(rs[1..])
  {
  }

  lemma ReadOneQuote(r: string, rest: string)
    requires '"' !in r
    ensures var s := "\"" + r + "\"" + rest;
            s[0] == '"' && Until(s[1..], '"') == |r| && s[1..][..|r|] == r && s[|r| + 2..] == rest
  {
    var s := "\"" + r + "\"" + rest;
    assert s[1..] == r + ['"'] + rest;
    UntilFirst(r, '"', rest);
  }

  lemma LastQuoteReads(r: string)
    requires '"' !in r
    ensures ReadQuotes("\"" + r + "\"") == Some([r])
  {
    ReadOneQuote(r, "");
    assert "\"" + r + "\"" + "" == "\"" + r + "\"";
  }

  lemma NextQuoteReads(r: string, more: string)
    requires '"' !in r && more != "" && ReadQuotes(more).Some?
    ensures ReadQuotes("\"" + r + "\"" + ([' '] + more)) == Some([r] + ReadQuotes(more).value)
  {
    ReadOneQuote(r, [' '] + more);
    assert ([' '] + more)[1..] == more;
  }

  lemma JoinQuoted(rs: seq<string>)
    requires rs != []
    ensures Join(Quoted(rs), " ")
         == "\"" + rs[0] + "\"" + if |rs| == 1 then "" else [' '] + Join(Quoted(rs[1..]), " ")
    ensures Join(Quoted(rs), " ") != ""
  {
    QuotedCons(rs);
    if |rs| > 1 {
      JoinCons(Quoted(rs));
      assert Quoted(rs)[1..] == Quoted(rs[1..]);
    }
  }

  lemma {:induction false} QuotesRead(rs: seq<string>)
    requires Unquoted(rs)
    ensures ReadQuotes(Join(Quoted(rs), " ")) == Some(rs)
    decreases |rs|
  {
    if rs != [] {
      var tail := rs[1..];
      JoinQuoted(rs);
      assert rs == [rs[0]] + tail;
      if tail == [] {
        LastQuoteReads(rs[0]);
        assert "\"" + rs[0] + "\"" + "" == "\"" + rs[0] + "\"" && [rs[0]] + tail == [rs[0]];
      } else {
        QuotesRead(tail);
        JoinQuoted(tail);
        NextQuoteReads(rs[0], Join(Quoted(tail), " "));
      }
    }
  }

  // ----- braces

  /** Index of the first closing brace outside quotes, or the length. */
  function CloseAt(s: string, quoted: bool): (n: nat)
    ensures n <= |s|
  {
    if s == "" || (s[0] == '}' && !quoted) then 0 else 1 + CloseAt(s[1..], (s[0] == '"') != quoted)
  }

  /** Whether a text that starts outside quotes ends outside them, with no closing brace outside. */
  ghost predicate Balanced(s: string, quoted: bool) {
    if s == "" then !quoted
    else !(s[0] == '}' && !quoted) && Balanced(s[1..], (s[0] == '"') != quoted)
  }

  lemma {:induction false} CloseAfter(s: string, quoted: bool, rest: string)
    requires Balanced(s, quoted)
    ensures CloseAt(s + "}" + rest, quoted) == |s|
  {
    if s != "" {
      assert (s + "}" + rest)[1..] == s[1..] + "}" + rest;
      CloseAfter(s[1..], (s[0] == '"') != quoted, rest);
    }
  }

  lemma {:induction false} PlainIsBalanced(s: string)
    requires '}' !in s && '"' !in s
    ensures Balanced(s, false)
  {
    if s != "" {
      assert s[0] in s;
      PlainIsBalanced(s[1..]);
    }
  }

  lemma {:induction false} BalancedConcat(a: string, quoted: bool, b: string)
    requires Balanced(a, quoted) && Balanced(b, false)
    ensures Balanced(a + b, quoted)
  {
    if a == "" {
      assert a + b == b;
    } else {
      assert (a + b)[1..] == a[1..] + b;
      BalancedConcat(a[1..], (a[0] == '"') != quoted, b);
    }
  }

  lemma {:induction false} InsideIsBalanced(r: string)
    requires '"' !in r
    ensures Balanced(r + "\"", true)
  {
    if r == "" {
      assert r + "\"" == "\"" && "\""[1..] == "";
    } else {
      assert r[0] in r && (r + "\"")[1..] == r[1..] + "\"";
      InsideIsBalanced(r[1..]);
    }
  }

  lemma QuoteIsBalanced(r: string)
    requires '"' !in r
    ensures Balanced("\"" + r + "\"", false)
  {
    assert ("\"" + r + "\"")[1..] == r + "\"";
    InsideIsBalanced(r);
  }

  lemma {:induction false} QuotesAreBalanced(rs: seq<string>)
    requires Unquoted(rs)
    ensures Balanced(Join(Quoted(rs), " "), false)
    decreases |rs|
  {
    if rs != [] {
      QuotedCons(rs);
      QuoteIsBalanced(rs[0]);
      if |rs| > 1 {
        QuotesAreBalanced(rs[1..]);
        JoinCons(Quoted(rs));
        var q, more := "\"" + rs[0] + "\"", Join(Quoted(rs[1..]), " ");
        PlainIsBalanced(" ");
        BalancedConcat(" ", false, more);
        BalancedConcat(q, false, " " + more);
        assert q + [' '] + more == q + (" " + more);
      }
    }
  }

  lemma {:induction false} JoinChars(ws: seq<string>, c: char)
    requires c != ' ' && forall i :: 0 <= i < |ws| ==> c !in ws[i]
    ensures c !in Join(ws, " ")
    decreases |ws|
  {
    if |ws| > 1 {
      JoinCons(ws);
      JoinChars(ws[1..], c);
    }
  }

  lemma NumbersAreBalanced(ns: seq<u32>)
    ensures Balanced(Join(Decimals(ns), " "), false)
  {
    forall i | 0 <= i < |ns| ensures '}' !in Decimals(ns)[i] && '"' !in Decimals(ns)[i] {
      DecimalReads(ns[i] as nat);
      NoneOf(Decimal(ns[i] as nat), '}');
      NoneOf(Decimal(ns[i] as nat), '"');
    }
    JoinChars(Decimals(ns), '}');
    JoinChars(Decimals(ns), '"');
    PlainIsBalanced(Join(Decimals(ns), " "));
  }

  lemma AddressesAreBalanced(ips: seq<u32>)
    ensures Balanced(Join(Dotteds(ips), " "), false)
  {
    forall i | 0 <= i < |ips| ensures '}' !in Dotteds(ips)[i] && '"' !in Dotteds(ips)[i] {
      DottedChars(ips[i]);
    }
    JoinChars(Dotteds(ips), '}');
    JoinChars(Dotteds(ips), '"');
    PlainIsBalanced(Join(Dotteds(ips), " "));
  }

  // ----- clauses

  const ASN_OPEN: string := "(ip.src.asnum in {"
  const IP_OPEN: string := "(ip.src in {"
  const REGION_OPEN: string := "} and not ip.src.country in {"
  const CLOSE: string := "})"
  const OR: string := " or "

  function After(prefix: string, s: string): (rest: Option<string>)
    ensures rest.Some? ==> |rest.value| + |prefix| == |s|
  {
    if prefix <= s then Some(s[|prefix|..]) else None
  }

  /** A list up to its closing brace, and the text from the brace on. */
  function Listing(s: string): (r: (string, string))
    ensures |r.1| <= |s|
  {
    var n := CloseAt(s, false);
    (s[..n], s[n..])
  }

  /** What may follow the ASN list of a clause: its end, or the regions. */
  function ReadAsnClause(s: string): (r: Option<(Clause, string)>)
    ensures r.Some? ==> |r.value.1| <= |s|
  {
    var (list, more) := Listing(s);
    match ReadAll(Words(list), ReadNumber)
    case None => None
    case Some(asns) =>
      match (After(CLOSE, more), After(REGION_OPEN, more))
      case (Some(rest), _) => Some((BlockedAsns(asns), rest))
      case (None, Some(regions)) => ReadRegions(asns, regions)
      case _ => None
  }

  function ReadRegions(asns: seq<u32>, s: string): (r: Option<(Clause, string)>)
    ensures r.Some? ==> |r.value.1| <= |s|
  {
    var (list, more) := Listing(s);
    match (ReadQuotes(list), After(CLOSE, more))
    case (Some(regions), Some(rest)) => Some((Regional(asns, regions), rest))
    case _ => None
  }

  function ReadIpClause(s: string): (r: Option<(Clause, string)>)
    ensures r.Some? ==> |r.value.1| <= |s|
  {
    var (list, more) := Listing(s);
    match (ReadAll(Words(list), ReadDotted), After(CLOSE, more))
    case (Some(ips), Some(rest)) => Some((IpSet(ips), rest))
    case _ => None
  }

  /** One clause, and the text behind it. */
  function ReadClause(s: string): (r: Option<(Clause, string)>)
    ensures r.Some? ==> |r.value.1| < |s|
  {
    match (After(ASN_OPEN, s), After(IP_OPEN, s))
    case (Some(t), _) => ReadAsnClause(t)
    case (None, Some(t)) => ReadIpClause(t)
    case _ => None
  }

  /** One clause or more. */
  function ReadClauses(s: string): Option<seq<Clause>>
    decreases |s|
  {
    match ReadClause(s)
    case None => None
    case Some((c, rest)) =>
      if rest == "" then Some([c])
      else if After(OR, rest).None? then None
      else
        match ReadClauses(After(OR, rest).value)
        case Some(cs) => Some([c] + cs)
        case None => None
  }

  function ReadRule(s: string): Option<seq<Clause>> {
    if s == "" then Some([]) else ReadClauses(s)
  }

  // ----- reading what was printed

  lemma AfterPrefix(prefix: string, rest: string)
    ensures After(prefix, prefix + rest) == Some(rest)
  {
  }

  lemma ListingReads(list: string, rest: string)
    requires Balanced(list, false)
    ensures Listing(list + "}" + rest) == (list, "}" + rest)
  {
    CloseAfter(list, false, rest);
    var s := list + "}" + rest;
    assert s[..|list|] == list && s[|list|..] == "}" + rest;
  }

  lemma ClosedText(rest: string)
    ensures After(CLOSE, "}" + (")" + rest)) == Some(rest)
  {
    assert CLOSE == "}" + ")" && "}" + (")" + rest) == CLOSE + rest;
    AfterPrefix(CLOSE, rest);
  }

  /** What stands between the ASN list's brace and the list of regions. */
  const BETWEEN: string := " and not ip.src.country in {"

  lemma RegionText(rest: string)
    ensures After(REGION_OPEN, "}" + (BETWEEN + rest)) == Some(rest)
    ensures After(CLOSE, "}" + (BETWEEN + rest)) == None
  {
    var s := "}" + (BETWEEN + rest);
    assert REGION_OPEN == "}" + BETWEEN && s == REGION_OPEN + rest;
    AfterPrefix(REGION_OPEN, rest);
    assert CLOSE[1] == ')' && BETWEEN[0] == ' ' && s[1] == BETWEEN[0];
  }

  lemma OpensDiffer(rest: string)
    ensures After(ASN_OPEN, IP_OPEN + rest) == None
  {
    assert ASN_OPEN[7] == '.' && IP_OPEN[7] == ' ' && (IP_OPEN + rest)[7] == IP_OPEN[7];
  }

  lemma OneList(open: string, list: string, rest: string)
    ensures open + list + "})" + rest == open + (list + "}" + (")" + rest))
  {
    assert "})" == "}" + ")";
  }

  lemma TwoLists(open: string, list: string, list2: string, rest: string)
    ensures open + list + REGION_OPEN + list2 + "})" + rest
         == open + (list + "}" + (BETWEEN + (list2 + "}" + (")" + rest))))
  {
    assert "})" == "}" + ")" && REGION_OPEN == "}" + BETWEEN;
  }

  lemma BlockedReads(asns: seq<u32>, rest: string)
    ensures ReadClause(Print(BlockedAsns(asns)) + rest) == Some((BlockedAsns(asns), rest))
  {
    var list := Join(Decimals(asns), " ");
    OneList(ASN_OPEN, list, rest);
    AfterPrefix(ASN_OPEN, list + "}" + (")" + rest));
    NumbersAreBalanced(asns);
    ListingReads(list, ")" + rest);
    DecimalsRead(asns);
    ClosedText(rest);
  }

  lemma RegionsRead(asns: seq<u32>, regions: seq<string>, rest: string)
    requires Unquoted(regions)
    ensures ReadRegions(asns, Join(Quoted(regions), " ") + "}" + (")" + rest)) == Some((Regional(asns, regions), rest))
  {
    QuotesAreBalanced(regions);
    ListingReads(Join(Quoted(regions), " "), ")" + rest);
    QuotesRead(regions);
    ClosedText(rest);
  }

  lemma RegionalReads(asns: seq<u32>, regions: seq<string>, rest: string)
    requires Unquoted(regions)
    ensures ReadClause(Print(Regional(asns, regions)) + rest) == Some((Regional(asns, regions), rest))
  {
    var list, list2 := Join(Decimals(asns), " "), Join(Quoted(regions), " ");
    var more := list2 + "}" + (")" + rest);
    TwoLists(ASN_OPEN, list, list2, rest);
    AfterPrefix(ASN_OPEN, list + "}" + (BETWEEN + more));
    NumbersAreBalanced(asns);
    ListingReads(list, BETWEEN + more);
    DecimalsRead(asns);
    RegionText(more);
    RegionsRead(asns, regions, rest);
  }

  lemma IpSetReads(ips: seq<u32>, rest: string)
    ensures ReadClause(Print(IpSet(ips)) + rest) == Some((IpSet(ips), rest))
  {
    var list := Join(Dotteds(ips), " ");
    var more := list + "}" + (")" + rest);
    OneList(IP_OPEN, list, rest);
    AfterPrefix(IP_OPEN, more);
    OpensDiffer(more);
    AddressesAreBalanced(ips);
    ListingReads(list, ")" + rest);
    DottedsRead(ips);
    ClosedText(rest);
  }

  ghost predicate Readable(c: Clause) {
    c.Regional? ==> Unquoted(c.regions)
  }

  lemma ClauseReads(c: Clause, rest: string)
    requires Readable(c)
    ensures ReadClause(Print(c) + rest) == Some((c, rest))
  {
    match c {
      case Regional(asns, regions) => RegionalReads(asns, regions, rest);
      case BlockedAsns(asns) => BlockedReads(asns, rest);
      case IpSet(ips) => IpSetReads(ips, rest);
    }
  }

  ghost predicate AllReadable(cs: seq<Clause>) {
    forall i :: 0 <= i < |cs| ==> Readable(cs[i])
  }

  lemma PrintAllCons(cs: seq<Clause>)
    requires cs != []
    ensures PrintAll(cs) == Print(cs[0]) + if |cs| == 1 then "" else OR + PrintAll(cs[1..])
  {
    assert Printed(cs)[1..] == Printed(cs[1..]);
    if |cs| > 1 {
      assert Print(cs[0]) + OR + PrintAll(cs[1..]) == Print(cs[0]) + (OR + PrintAll(cs[1..]));
    }
  }

  lemma LastClauseReads(c: Clause)
    requires Readable(c)
    ensures Print(c) != "" && ReadClauses(Print(c)) == Some([c])
  {
    ClauseReads(c, "");
    assert Print(c) + "" == Print(c);
  }

  lemma NextClauseReads(c: Clause, more: string)
    requires Readable(c) && ReadClauses(more).Some?
    ensures ReadClauses(Print(c) + (OR + more)) == Some([c] + ReadClauses(more).value)
  {
    ClauseReads(c, OR + more);
    AfterPrefix(OR, more);
  }

  lemma {:induction false} ClausesRead(cs: seq<Clause>)
    requires cs != [] && AllReadable(cs)
    ensures PrintAll(cs) != "" && ReadClauses(PrintAll(cs)) == Some(cs)
    decreases |cs|
  {
    var c, tail := cs[0], cs[1..];
    PrintAllCons(cs);
    LastClauseReads(c);
    assert Readable(c) && cs == [c] + tail;
    if tail == [] {
      assert Print(c) + "" == Print(c) && [c] + tail == [c];
    } else {
      ClausesRead(tail);
      NextClauseReads(c, PrintAll(tail));
    }
  }

  // ----- only texts without quotes can be read back

  lemma {:induction false} QuotesReadUnquoted(s: string)
    ensures ReadQuotes(s).Some? ==> Unquoted(ReadQuotes(s).value)
    decreases |s|
  {
    if s != "" && s[0] == '"' {
      var n := Until(s[1..], '"');
      UntilMisses(s[1..], '"');
      if n < |s| - 1 && |s[n + 2..]| > 1 {
        QuotesReadUnquoted(s[n + 2..][1..]);
      }
    }
  }

  lemma ClauseReadReadable(s: string)
    ensures ReadClause(s).Some? ==> Readable(ReadClause(s).value.0)
  {
    match After(ASN_OPEN, s) {
      case Some(t) => AsnClauseReadReadable(t);
      case None =>
    }
  }

  lemma AsnClauseReadReadable(t: string)
    ensures ReadAsnClause(t).Some? ==> Readable(ReadAsnClause(t).value.0)
  {
    match After(REGION_OPEN, Listing(t).1) {
      case Some(u) => QuotesReadUnquoted(Listing(u).0);
      case None =>
    }
  }

  lemma {:induction false} ClausesReadReadable(s: string)
    ensures ReadClauses(s).Some? ==> AllReadable(ReadClauses(s).value)
    decreases |s|
  {
    ClauseReadReadable(s);
    match ReadClause(s) {
      case Some((c, rest)) =>
        if rest != "" && After(OR, rest).Some? {
          ClausesReadReadable(After(OR, rest).value);
        }
      case None =>
    }
  }

  /** The printed rule reads back as its clauses, whatever they list, exactly when no region has a quote in it. */
  lemma RuleReadsIff(cs: seq<Clause>)
    ensures ReadRule(PrintAll(cs)) == Some(cs) <==> AllReadable(cs)
  {
    if cs != [] && AllReadable(cs) {
      ClausesRead(cs);
    }
    ClausesReadReadable(PrintAll(cs));
  }
}
