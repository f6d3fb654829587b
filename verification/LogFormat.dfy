/** Compiled access-log formats (src/parser/nginx.rs): compiling a format body to segments, and splitting a
    log line along them. Positions count characters; the source's byte offsets fall on character boundaries. */
module LogFormat {
  import opened Cidr
  import opened Text
  import opened Wrappers

  datatype LogVariable =
    | RemoteAddr | CfConnectingIp | XForwardedFor | TimeLocal | Request | RequestMethod | RequestUri | Status
    | BodyBytesSent | HttpReferer | HttpUserAgent | Host | Ignored(name: string)

  datatype Segment = Variable(variable: LogVariable) | Literal(text: string)

  /** A variable with the text it captured. */
  datatype Capture = Capture(variable: LogVariable, value: string)

  // ----- splitting a line: the specification

  function Prepend(c: Capture, rest: Option<seq<Capture>>): Option<seq<Capture>> {
    match rest
    case Some(cs) => Some([c] + cs)
    case None => None
  }

  /** Where the value of a variable ends that another variable follows: at the next space. */
  function NextSpace(rest: string): (n: nat)
    ensures n <= |rest|
  {
    FindFirst(rest, " ");
    match Find(rest, " ")
    case Some(i) => i
    case None => |rest|
  }

  /** What one segment does at a text: the value it completes, the characters it consumes, and the variable
      left waiting. */
  datatype Advance = Advance(captured: Option<Capture>, consumed: nat, pending: Option<LogVariable>)

  function MatchSegment(seg: Segment, rest: string, pending: Option<LogVariable>): (r: Option<Advance>)
    ensures r.Some? ==> r.value.consumed <= |rest|
  {
    match seg
    case Literal(lit) =>
      if pending.Some? then
        FindFirst(rest, lit);
        match Find(rest, lit)
        case None => None
        case Some(i) => Some(Advance(Some(Capture(pending.value, rest[..i])), i + |lit|, None))
      else if lit <= rest then Some(Advance(None, |lit|, None))
      else None
    case Variable(v) =>
      if pending.Some? then
        var i := NextSpace(rest);
        Some(Advance(Some(Capture(pending.value, rest[..i])), i, Some(v)))
      else Some(Advance(None, 0, Some(v)))
  }

  /** Matches segments against a text, with a variable possibly waiting for its value. */
  function Split(segs: seq<Segment>, rest: string, pending: Option<LogVariable>): Option<seq<Capture>>
    decreases |segs|
  {
    if segs == [] then
      Some(if pending.Some? then [Capture(pending.value, rest)] else [])
    else
      match MatchSegment(segs[0], rest, pending)
      case None => None
      case Some(a) => After(a.captured, Split(segs[1..], rest[a.consumed..], a.pending))
  }

  function After(c: Option<Capture>, rest: Option<seq<Capture>>): Option<seq<Capture>> {
    if c.Some? then Prepend(c.value, rest) else rest
  }

  // ----- what a split means

  /** The segments still to be matched, the waiting variable included. */
  function Waiting(pending: Option<LogVariable>, segs: seq<Segment>): seq<Segment> {
    (if pending.Some? then [Variable(pending.value)] else []) + segs
  }

  function VariablesOf(segs: seq<Segment>): seq<LogVariable> {
    if segs == [] then []
    else (match segs[0] case Variable(v) => [v] case Literal(_) => []) + VariablesOf(segs[1..])
  }

  function Captured(cs: seq<Capture>): (vs: seq<LogVariable>)
    ensures |vs| == |cs|
  {
    seq(|cs|, i requires 0 <= i < |cs| => cs[i].variable)
  }

  /** Literals and captured values, concatenated in the order of the segments. */
  function Rendered(segs: seq<Segment>, cs: seq<Capture>): string {
    if segs == [] then ""
    else
      match segs[0]
      case Literal(lit) => lit + Rendered(segs[1..], cs)
      case Variable(_) => if cs == [] then "" else cs[0].value + Rendered(segs[1..], cs[1..])
  }

  /** Text may be left over only after a final literal (or when there are no segments at all). */
  ghost predicate MayLeaveRest(segs: seq<Segment>) {
    segs == [] || segs[|segs| - 1].Literal?
  }

  /** A split names the variables of the format in order, and its literals and values concatenated are the
      text, up to a rest after a final literal. */
  ghost predicate Explains(segs: seq<Segment>, cs: seq<Capture>, text: string) {
    && Captured(cs) == VariablesOf(segs)
    && Rendered(segs, cs) <= text
    && (MayLeaveRest(segs) || Rendered(segs, cs) == text)
  }

  lemma ExplainsLiteral(lit: string, segs: seq<Segment>, cs: seq<Capture>, rest: string)
    requires Explains(segs, cs, rest)
    ensures Explains([Literal(lit)] + segs, cs, lit + rest)
  {
    var all := [Literal(lit)] + segs;
    assert all[1..] == segs;
    assert Rendered(segs, cs) == rest[..|Rendered(segs, cs)|];
    assert lit + Rendered(segs, cs) == (lit + rest)[..|lit| + |Rendered(segs, cs)|];
  }

  lemma ExplainsVariable(c: Capture, segs: seq<Segment>, cs: seq<Capture>, rest: string)
    requires Explains(segs, cs, rest) && segs != []
    ensures Explains([Variable(c.variable)] + segs, [c] + cs, c.value + rest)
  {
    var all := [Variable(c.variable)] + segs;
    assert all[1..] == segs && ([c] + cs)[1..] == cs;
    assert Captured([c] + cs) == [c.variable] + Captured(cs);
    assert Rendered(segs, cs) == rest[..|Rendered(segs, cs)|];
    assert c.value + Rendered(segs, cs) == (c.value + rest)[..|c.value| + |Rendered(segs, cs)|];
  }

  lemma LiteralAt(lit: string, tail: seq<Segment>, cs: seq<Capture>, rest: string, i: nat)
    requires i + |lit| <= |rest| && rest[i..i + |lit|] == lit && Explains(tail, cs, rest[i + |lit|..])
    ensures Explains([Literal(lit)] + tail, cs, rest[i..])
  {
    ExplainsLiteral(lit, tail, cs, rest[i + |lit|..]);
    assert rest[i..] == lit + rest[i + |lit|..];
  }

  lemma ValueUpTo(v: LogVariable, segs: seq<Segment>, cs: seq<Capture>, rest: string, i: nat)
    requires i <= |rest| && segs != [] && Explains(segs, cs, rest[i..])
    ensures Explains(Waiting(Some(v), segs), [Capture(v, rest[..i])] + cs, rest)
  {
    ExplainsVariable(Capture(v, rest[..i]), segs, cs, rest[i..]);
    assert rest == rest[..i] + rest[i..];
  }

  lemma ValueAtEnd(v: LogVariable, rest: string)
    ensures Explains(Waiting(Some(v), []), [Capture(v, rest)], rest)
  {
    assert Waiting(Some(v), [])[1..] == [];
    assert rest + "" == rest;
  }

  function WithCapture(c: Option<Capture>, cs: seq<Capture>): seq<Capture> {
    if c.Some? then [c.value] + cs else cs
  }

  function Completed(pending: Option<LogVariable>, rest: string, i: nat): Option<Capture>
    requires i <= |rest|
  {
    if pending.Some? then Some(Capture(pending.value, rest[..i])) else None
  }

  lemma MatchedLiteral(lit: string, rest: string, pending: Option<LogVariable>, a: Advance)
    requires MatchSegment(Literal(lit), rest, pending) == Some(a)
    ensures var i := a.consumed - |lit|;
            && 0 <= i && a.consumed <= |rest| && rest[i..i + |lit|] == lit
            && a.captured == Completed(pending, rest, i)
            && (pending.None? ==> i == 0)
  {
    FindFirst(rest, lit);
  }

  lemma PendingExplains(pending: Option<LogVariable>, segs: seq<Segment>, cs: seq<Capture>, rest: string, i: nat)
    requires i <= |rest| && segs != [] && Explains(segs, cs, rest[i..]) && (pending.None? ==> i == 0)
    ensures Explains(Waiting(pending, segs), WithCapture(Completed(pending, rest, i), cs), rest)
  {
    if pending.Some? {
      ValueUpTo(pending.value, segs, cs, rest, i);
    } else {
      assert rest[0..] == rest && Waiting(None, segs) == segs;
    }
  }

  lemma LiteralFound(lit: string, rest: string, pending: Option<LogVariable>, i: nat, tail: seq<Segment>,
                     cs: seq<Capture>)
    requires i + |lit| <= |rest| && rest[i..i + |lit|] == lit && (pending.None? ==> i == 0)
    requires Explains(tail, cs, rest[i + |lit|..])
    ensures Explains(Waiting(pending, [Literal(lit)] + tail), WithCapture(Completed(pending, rest, i), cs), rest)
  {
    LiteralAt(lit, tail, cs, rest, i);
    PendingExplains(pending, [Literal(lit)] + tail, cs, rest, i);
  }

  lemma LiteralExplains(lit: string, rest: string, pending: Option<LogVariable>, a: Advance, tail: seq<Segment>,
                        cs: seq<Capture>)
    requires MatchSegment(Literal(lit), rest, pending) == Some(a) && Explains(tail, cs, rest[a.consumed..])
    ensures Explains(Waiting(pending, [Literal(lit)] + tail), WithCapture(a.captured, cs), rest)
  {
    MatchedLiteral(lit, rest, pending, a);
    LiteralFound(lit, rest, pending, a.consumed - |lit|, tail, cs);
  }

  lemma VariableExplains(v: LogVariable, rest: string, pending: Option<LogVariable>, a: Advance, tail: seq<Segment>,
                         cs: seq<Capture>)
    requires MatchSegment(Variable(v), rest, pending) == Some(a)
    requires Explains(Waiting(Some(v), tail), cs, rest[a.consumed..])
    ensures Explains(Waiting(pending, [Variable(v)] + tail), WithCapture(a.captured, cs), rest)
  {
    assert Waiting(Some(v), tail) == [Variable(v)] + tail;
    if pending.Some? {
      ValueUpTo(pending.value, [Variable(v)] + tail, cs, rest, a.consumed);
    } else {
      assert rest[0..] == rest && Waiting(None, [Variable(v)] + tail) == [Variable(v)] + tail;
    }
  }

  lemma SplitUnfold(segs: seq<Segment>, rest: string, pending: Option<LogVariable>)
    returns (a: Advance, cs: seq<Capture>)
    requires segs != [] && Split(segs, rest, pending).Some?
    ensures MatchSegment(segs[0], rest, pending) == Some(a)
    ensures Split(segs[1..], rest[a.consumed..], a.pending) == Some(cs)
    ensures Split(segs, rest, pending) == Some(WithCapture(a.captured, cs))
  {
    a := MatchSegment(segs[0], rest, pending).value;
    cs := Split(segs[1..], rest[a.consumed..], a.pending).value;
  }

  lemma {:induction false} SplitExplains(segs: seq<Segment>, rest: string, pending: Option<LogVariable>)
    requires Split(segs, rest, pending).Some?
    ensures Explains(Waiting(pending, segs), Split(segs, rest, pending).value, rest)
    decreases |segs|
  {
    if segs == [] {
      if pending.Some? { ValueAtEnd(pending.value, rest); }
    } else {
      var tail := segs[1..];
      var a, cs := SplitUnfold(segs, rest, pending);
      SplitExplains(tail, rest[a.consumed..], a.pending);
      assert segs == [segs[0]] + tail;
      if segs[0].Literal? {
        assert Waiting(None, tail) == tail;
        LiteralExplains(segs[0].text, rest, pending, a, tail, cs);
      } else {
        VariableExplains(segs[0].variable, rest, pending, a, tail, cs);
      }
    }
  }

  // ----- and which values come back

  ghost predicate NoAdjacentVariables(segs: seq<Segment>) {
    forall i :: 0 < i < |segs| ==> !(segs[i - 1].Variable? && segs[i].Variable?)
  }

  /** Each value is followed by its literal, which must first occur where the value ends. */
  ghost predicate Delimited(segs: seq<Segment>, cs: seq<Capture>) {
    if segs == [] then cs == []
    else
      match segs[0]
      case Literal(_) => Delimited(segs[1..], cs)
      case Variable(v) =>
        && cs != [] && cs[0].variable == v && Delimited(segs[1..], cs[1..])
        && (|segs| > 1 && segs[1].Literal? ==>
              Find(cs[0].value + segs[1].text, segs[1].text) == Some(|cs[0].value|))
  }

  /** A waiting variable gets its value when its literal first occurs right after it. */
  lemma ValueThenLiteral(v: LogVariable, lit: string, value: string, after: string)
    requires Find(value + lit, lit) == Some(|value|)
    ensures MatchSegment(Literal(lit), value + lit + after, Some(v))
            == Some(Advance(Some(Capture(v, value)), |value + lit|, None))
    ensures (value + lit + after)[|value + lit|..] == after
  {
    FindStable(value + lit, lit, after);
    var text := value + lit + after;
    assert Find(text, lit) == Some(|value|);
    assert text[..|value|] == value && text[|value + lit|..] == after;
  }

  lemma NoAdjacentTail(segs: seq<Segment>)
    requires NoAdjacentVariables(segs) && segs != []
    ensures NoAdjacentVariables(segs[1..])
  {
    var tail := segs[1..];
    forall i | 0 < i < |tail| ensures !(tail[i - 1].Variable? && tail[i].Variable?) {
      assert !(segs[i].Variable? && segs[i + 1].Variable?);
    }
  }

  lemma SplitAfterLiteral(segs: seq<Segment>, cs: seq<Capture>, more: string)
    requires segs != [] && segs[0].Literal?
    ensures Split(segs, Rendered(segs, cs) + more, None) == Split(segs[1..], Rendered(segs[1..], cs) + more, None)
  {
    var lit, rest := segs[0].text, Rendered(segs[1..], cs) + more;
    assert Rendered(segs, cs) + more == lit + rest && (lit + rest)[|lit|..] == rest;
  }

  lemma SingleVariable(v: LogVariable, cs: seq<Capture>)
    requires Delimited([Variable(v)], cs)
    ensures Split([Variable(v)], Rendered([Variable(v)], cs), None) == Some(cs)
  {
    assert [Variable(v)][1..] == [] && cs == [cs[0]];
    LastValueSplit(v, cs[0].value);
    assert Rendered([Variable(v)], cs) == cs[0].value + "" == cs[0].value;
  }

  /** Rendering delimited values and splitting the text returns exactly those values; more text may follow a
      final literal. */
  lemma {:induction false} RenderThenSplit(segs: seq<Segment>, cs: seq<Capture>, more: string)
    requires NoAdjacentVariables(segs) && Delimited(segs, cs) && (more != "" ==> MayLeaveRest(segs))
    ensures Split(segs, Rendered(segs, cs) + more, None) == Some(cs)
    decreases |segs|
  {
    if segs != [] {
      var tail := segs[1..];
      NoAdjacentTail(segs);
      if segs[0].Literal? {
        SplitAfterLiteral(segs, cs, more);
        RenderThenSplit(tail, cs, more);
      } else if tail == [] {
        assert segs == [segs[0]] && Rendered(segs, cs) + more == Rendered(segs, cs);
        SingleVariable(segs[0].variable, cs);
      } else {
        assert !(segs[0].Variable? && segs[1].Variable?) && segs == [segs[0]] + tail;
        NoAdjacentTail(tail);
        DelimitedTail(segs, cs);
        RenderThenSplit(tail[1..], cs[1..], more);
        SplitAtLiteral(segs[0].variable, tail, cs, more);
      }
    }
  }

  lemma DelimitedTail(segs: seq<Segment>, cs: seq<Capture>)
    requires |segs| > 1 && segs[0].Variable? && segs[1].Literal? && Delimited(segs, cs)
    ensures cs != [] && cs[0].variable == segs[0].variable && Delimited(segs[1..][1..], cs[1..])
    ensures Find(cs[0].value + segs[1].text, segs[1].text) == Some(|cs[0].value|)
  {
    assert Delimited(segs[1..], cs[1..]);
  }

  lemma LastValueSplit(v: LogVariable, value: string)
    ensures Split([Variable(v)], value, None) == Some([Capture(v, value)])
  {
    assert [Variable(v)][1..] == [] && value[0..] == value;
  }

  lemma {:induction false} SplitWaiting(v: LogVariable, lit: string, tail: seq<Segment>, value: string, after: string,
                                        cs: seq<Capture>)
    requires Find(value + lit, lit) == Some(|value|) && Split(tail, after, None) == Some(cs)
    ensures Split([Literal(lit)] + tail, value + lit + after, Some(v)) == Some([Capture(v, value)] + cs)
  {
    ValueThenLiteral(v, lit, value, after);
    assert ([Literal(lit)] + tail)[1..] == tail;
  }

  lemma {:induction false} SplitVariable(v: LogVariable, tail: seq<Segment>, text: string)
    ensures Split([Variable(v)] + tail, text, None) == Split(tail, text, Some(v))
  {
    assert ([Variable(v)] + tail)[1..] == tail && text[0..] == text;
  }

  lemma {:induction false} RenderedWaiting(v: LogVariable, tail: seq<Segment>, cs: seq<Capture>, more: string)
    requires tail != [] && tail[0].Literal? && cs != []
    ensures Rendered([Variable(v)] + tail, cs) + more
         == cs[0].value + tail[0].text + (Rendered(tail[1..], cs[1..]) + more)
  {
    assert ([Variable(v)] + tail)[1..] == tail;
  }

  lemma {:induction false} SplitAtLiteral(v: LogVariable, tail: seq<Segment>, cs: seq<Capture>, more: string)
    requires tail != [] && tail[0].Literal? && cs != [] && cs[0].variable == v
    requires Find(cs[0].value + tail[0].text, tail[0].text) == Some(|cs[0].value|)
    requires Split(tail[1..], Rendered(tail[1..], cs[1..]) + more, None) == Some(cs[1..])
    ensures Split([Variable(v)] + tail, Rendered([Variable(v)] + tail, cs) + more, None) == Some(cs)
  {
    var value, after := cs[0].value, Rendered(tail[1..], cs[1..]) + more;
    assert tail == [tail[0]] + tail[1..];
    RenderedWaiting(v, tail, cs, more);
    SplitWaiting(v, tail[0].text, tail[1..], value, after, cs[1..]);
    SplitVariable(v, tail, value + tail[0].text + after);
    assert cs == [Capture(v, value)] + cs[1..];
  }

  /** A literal that first occurs in a longer text right behind a value also does so in the shorter one. */
  lemma FirstBehindValue(value: string, lit: string, after: string)
    requires Find(value + lit + after, lit) == Some(|value|)
    ensures Find(value + lit, lit) == Some(|value|)
  {
    var s := value + lit;
    FindFirst(s, lit);
    assert lit <= s[|value|..];
    FindStable(s, lit, after);
  }

  /** Splitting at the literal behind a variable gives its value only if the literal first occurs there. */
  lemma {:induction false} WaitingGivesBack(v: LogVariable, lit: string, tail: seq<Segment>, value: string,
                                            after: string, cs: seq<Capture>)
    requires Split([Literal(lit)] + tail, value + lit + after, Some(v)) == Some([Capture(v, value)] + cs)
    ensures Find(value + lit, lit) == Some(|value|) && Split(tail, after, None) == Some(cs)
  {
    var segs, text := [Literal(lit)] + tail, value + lit + after;
    assert segs[1..] == tail;
    var a, rest := SplitUnfold(segs, text, Some(v));
    MatchedLiteral(lit, text, Some(v), a);
    var i := a.consumed - |lit|;
    var whole := [Capture(v, text[..i])] + rest;
    assert whole == [Capture(v, value)] + cs;
    assert whole[0].value == value && whole[1..] == rest && ([Capture(v, value)] + cs)[1..] == cs;
    assert |value| == i && text[a.consumed..] == after;
    FirstBehindValue(value, lit, after);
  }

  lemma {:induction false} VariableGivesBack(v: LogVariable, tail: seq<Segment>, cs: seq<Capture>, more: string)
    requires tail != [] && tail[0].Literal? && cs != [] && cs[0].variable == v
    requires Split([Variable(v)] + tail, Rendered([Variable(v)] + tail, cs) + more, None) == Some(cs)
    ensures Find(cs[0].value + tail[0].text, tail[0].text) == Some(|cs[0].value|)
    ensures Split(tail[1..], Rendered(tail[1..], cs[1..]) + more, None) == Some(cs[1..])
  {
    var value, after := cs[0].value, Rendered(tail[1..], cs[1..]) + more;
    assert tail == [tail[0]] + tail[1..] && cs == [Capture(v, value)] + cs[1..];
    RenderedWaiting(v, tail, cs, more);
    SplitVariable(v, tail, value + tail[0].text + after);
    WaitingGivesBack(v, tail[0].text, tail[1..], value, after, cs[1..]);
  }

  lemma CapturedHead(segs: seq<Segment>, text: string, cs: seq<Capture>)
    requires segs != [] && segs[0].Variable? && Split(segs, text, None) == Some(cs)
    ensures cs != [] && cs[0].variable == segs[0].variable && (|segs| == 1 ==> |cs| == 1)
  {
    SplitExplains(segs, text, None);
    assert Waiting(None, segs) == segs;
    assert VariablesOf(segs) == [segs[0].variable] + VariablesOf(segs[1..]);
    assert Captured(cs)[0] == cs[0].variable;
  }

  lemma {:induction false} SplitThenDelimited(segs: seq<Segment>, cs: seq<Capture>, more: string)
    requires NoAdjacentVariables(segs) && Split(segs, Rendered(segs, cs) + more, None) == Some(cs)
    ensures Delimited(segs, cs)
    decreases |segs|
  {
    if segs != [] {
      var tail := segs[1..];
      NoAdjacentTail(segs);
      if segs[0].Literal? {
        SplitAfterLiteral(segs, cs, more);
        SplitThenDelimited(tail, cs, more);
      } else {
        CapturedHead(segs, Rendered(segs, cs) + more, cs);
        if tail == [] {
          assert cs[1..] == [];
        } else {
          assert !(segs[0].Variable? && segs[1].Variable?) && segs == [segs[0]] + tail;
          NoAdjacentTail(tail);
          VariableGivesBack(segs[0].variable, tail, cs, more);
          SplitThenDelimited(tail[1..], cs[1..], more);
          assert Delimited(tail, cs[1..]);
        }
      }
    }
  }

  /** For a format without adjacent variables, rendering values and splitting the text returns them exactly when
      each literal first occurs where the value before it ends. */
  lemma RoundTripIffDelimited(segs: seq<Segment>, cs: seq<Capture>, more: string)
    requires NoAdjacentVariables(segs) && (more != "" ==> MayLeaveRest(segs))
    ensures Split(segs, Rendered(segs, cs) + more, None) == Some(cs) <==> Delimited(segs, cs)
  {
    if Delimited(segs, cs) {
      RenderThenSplit(segs, cs, more);
    } else if Split(segs, Rendered(segs, cs) + more, None) == Some(cs) {
      SplitThenDelimited(segs, cs, more);
    }
  }

  // ----- the line parser

  /** The source's number and address parsers, as arbitrary functions. */
  datatype Parsers = Parsers(ip: string -> Option<IpAddr>, u16: string -> Option<nat>, isPrivate: IpAddr -> bool)

  datatype Fields = Fields(cfIp: Option<string>, xff: Option<string>, remoteAddr: Option<string>,
                           verb: Option<string>, path: Option<string>, request: Option<string>,
                           status: Option<nat>, referer: string, userAgent: string, host: Option<string>)

  const NO_FIELDS := Fields(None, None, None, None, None, None, None, "", "", None)

  datatype Entry = Entry(clientIp: IpAddr, verb: string, path: string, status: nat, referer: string,
                         userAgent: string, host: Option<string>)

  function Assign(p: Parsers, c: Capture, f: Fields): Fields {
    match c.variable
    case CfConnectingIp => f.(cfIp := Some(Trim(c.value)))
    case XForwardedFor => f.(xff := Some(Trim(c.value)))
    case RemoteAddr => f.(remoteAddr := Some(Trim(c.value)))
    case RequestMethod => f.(verb := Some(Trim(c.value)))
    case RequestUri => f.(path := Some(Trim(c.value)))
    case Request => f.(request := Some(Trim(c.value)))
    case Status => f.(status := p.u16(Trim(c.value)))
    case HttpReferer => f.(referer := c.value)
    case HttpUserAgent => f.(userAgent := c.value)
    case Host => f.(host := if Trim(c.value) == "" || Trim(c.value) == "-" then None else Some(Trim(c.value)))
    case TimeLocal => f
    case BodyBytesSent => f
    case Ignored(_) => f
  }

  function AssignAll(p: Parsers, cs: seq<Capture>, f: Fields): Fields {
    if cs == [] then f else AssignAll(p, cs[1..], Assign(p, cs[0], f))
  }

  /** The first public address of a forwarding list, else the remote address, else the first that parsed. */
  function XffIp(p: Parsers, parts: seq<string>, remote: Option<string>, firstValid: Option<IpAddr>): Option<IpAddr> {
    if parts == [] then
      if remote.Some? && p.ip(Trim(remote.value)).Some? then p.ip(Trim(remote.value)) else firstValid
    else
      var ip := p.ip(Trim(parts[0]));
      if ip.Some? && !p.isPrivate(ip.value) then ip
      else XffIp(p, parts[1..], remote, if firstValid.None? then ip else firstValid)
  }

  function ResolveClientIp(p: Parsers, f: Fields): Option<IpAddr> {
    var byCf := if f.cfIp.Some? then p.ip(Trim(Parts(f.cfIp.value, ',')[0])) else None;
    if byCf.Some? then byCf
    else if f.xff.Some? then XffIp(p, Parts(f.xff.value, ','), f.remoteAddr, None)
    else if f.remoteAddr.Some? then p.ip(Trim(f.remoteAddr.value))
    else None
  }

  /** The first whitespace-separated token of a text, and what follows it. */
  function Token(s: string): (string, string) {
    var t := TrimStart(s);
    var n := WordLength(t);
    (t[..n], t[n..])
  }

  function RequestParts(f: Fields): (string, string) {
    var (verb, rest) := Token(if f.request.Some? then f.request.value else "");
    var (path, _) := Token(rest);
    (if f.verb.Some? then Trim(f.verb.value) else if verb != "" then verb else "GET",
     if f.path.Some? then Trim(f.path.value) else if path != "" then path else "/")
  }

  function EntryOf(p: Parsers, f: Fields): Option<Entry> {
    match ResolveClientIp(p, f)
    case None => None
    case Some(ip) =>
      var (verb, path) := RequestParts(f);
      Some(Entry(ip, verb, path, if f.status.Some? then f.status.value else 200, f.referer, f.userAgent, f.host))
  }

  function TrimLineEnd(line: string): string {
    if line != "" && (line[|line| - 1] == '\r' || line[|line| - 1] == '\n') then TrimLineEnd(line[..|line| - 1])
    else line
  }

  ghost function ParsedLine(p: Parsers, segs: seq<Segment>, line: string): Option<Entry> {
    var clean := TrimLineEnd(line);
    if Trim(clean) == "" then None
    else
      match Split(segs, clean, None)
      case None => None
      case Some(cs) => EntryOf(p, AssignAll(p, cs, NO_FIELDS))
  }

  /** The cursor loop of the source: fills the fields as values are completed. */
  method FillFields(p: Parsers, segs: seq<Segment>, clean: string) returns (r: Option<Fields>)
    ensures r == match Split(segs, clean, None)
                 case None => None
                 case Some(cs) => Some(AssignAll(p, cs, NO_FIELDS))
  {
    var fields := NO_FIELDS;
    var cursor: nat := 0;
    var pending: Option<LogVariable> := None;
    ghost var done: seq<Capture> := [];
    HalfwayStart(segs, clean);
    for i := 0 to |segs|
      invariant Halfway(segs, clean, i, cursor, pending, done)
      invariant fields == AssignAll(p, done, NO_FIELDS)
    {
      HalfwayStep(segs, clean, i, cursor, pending, done);
      var step := MatchSegment(segs[i], clean[cursor..], pending);
      if step.None? {
        return None;
      }
      var Advance(captured, consumed, waiting) := step.value;
      AssignListed(p, done, captured, NO_FIELDS);
      if captured.Some? {
        fields := Assign(p, captured.value, fields);
      }
      done := done + Listed(captured);
      cursor := cursor + consumed;
      pending := waiting;
    }
    HalfwayEnd(segs, clean, cursor, pending, done);
    if pending.Some? {
      var c := Capture(pending.value, clean[cursor..]);
      AssignSnoc(p, done, c, NO_FIELDS);
      fields := Assign(p, c, fields);
    }
    r := Some(fields);
  }

  lemma AssignListed(p: Parsers, cs: seq<Capture>, c: Option<Capture>, f: Fields)
    ensures AssignAll(p, cs + Listed(c), f)
         == if c.Some? then Assign(p, c.value, AssignAll(p, cs, f)) else AssignAll(p, cs, f)
  {
    if c.Some? {
      AssignSnoc(p, cs, c.value, f);
    } else {
      assert cs + [] == cs;
    }
  }

  function Listed(c: Option<Capture>): seq<Capture> {
    if c.Some? then [c.value] else []
  }

  /** The values captured so far and those of the rest of the line make up the whole split. */
  ghost predicate Halfway(segs: seq<Segment>, clean: string, i: nat, cursor: nat, pending: Option<LogVariable>,
                          done: seq<Capture>)
  {
    && i <= |segs| && cursor <= |clean|
    && Split(segs, clean, None) == Extend(done, Split(segs[i..], clean[cursor..], pending))
  }

  lemma HalfwayStart(segs: seq<Segment>, clean: string)
    ensures Halfway(segs, clean, 0, 0, None, [])
  {
    ExtendNil(Split(segs, clean, None));
    assert segs[0..] == segs && clean[0..] == clean;
  }

  lemma HalfwayStep(segs: seq<Segment>, clean: string, i: nat, cursor: nat, pending: Option<LogVariable>,
                    done: seq<Capture>)
    requires i < |segs| && Halfway(segs, clean, i, cursor, pending, done)
    ensures var step := MatchSegment(segs[i], clean[cursor..], pending);
            if step.None? then Split(segs, clean, None).None?
            else Halfway(segs, clean, i + 1, cursor + step.value.consumed, step.value.pending,
                         done + Listed(step.value.captured))
  {
    SplitAt(segs, clean, i, cursor, pending);
    var step := MatchSegment(segs[i], clean[cursor..], pending);
    if step.Some? {
      var Advance(captured, consumed, waiting) := step.value;
      if captured.Some? {
        ExtendSnoc(done, captured.value, Split(segs[i + 1..], clean[cursor + consumed..], waiting));
      } else {
        assert done + [] == done;
      }
    }
  }

  lemma HalfwayEnd(segs: seq<Segment>, clean: string, cursor: nat, pending: Option<LogVariable>, done: seq<Capture>)
    requires Halfway(segs, clean, |segs|, cursor, pending, done)
    ensures Split(segs, clean, None)
         == Some(if pending.Some? then done + [Capture(pending.value, clean[cursor..])] else done)
  {
    assert segs[|segs|..] == [] && done + [] == done;
  }

  // ----- what the entry says, capture by capture

  /** The last capture of a variable. */
  ghost predicate LastAt(cs: seq<Capture>, v: LogVariable, i: int) {
    0 <= i < |cs| && cs[i].variable == v && forall j :: i < j < |cs| ==> cs[j].variable != v
  }

  ghost predicate Absent(cs: seq<Capture>, v: LogVariable) {
    forall j :: 0 <= j < |cs| ==> cs[j].variable != v
  }

  function LastValue(cs: seq<Capture>, v: LogVariable): Option<string> {
    if cs == [] then None
    else if cs[|cs| - 1].variable == v then Some(cs[|cs| - 1].value)
    else LastValue(cs[..|cs| - 1], v)
  }

  lemma {:induction false} LastValueMeaning(cs: seq<Capture>, v: LogVariable)
    ensures LastValue(cs, v).None? <==> Absent(cs, v)
    ensures forall i :: LastAt(cs, v, i) ==> LastValue(cs, v) == Some(cs[i].value)
  {
    if cs != [] {
      var init, last := cs[..|cs| - 1], cs[|cs| - 1];
      LastValueMeaning(init, v);
      assert Absent(cs, v) <==> Absent(init, v) && last.variable != v;
      forall i | LastAt(cs, v, i) ensures LastValue(cs, v) == Some(cs[i].value) {
        if i < |init| {
          assert cs[|init|].variable != v;
          assert LastAt(init, v, i);
        }
      }
    }
  }

  function Trimmed(o: Option<string>): Option<string> {
    if o.Some? then Some(Trim(o.value)) else None
  }

  function OrElse(o: Option<string>, default_: string): string {
    if o.Some? then o.value else default_
  }

  /** The trimmed value of the last capture of a variable. */
  function Field(cs: seq<Capture>, v: LogVariable): Option<string> {
    Trimmed(LastValue(cs, v))
  }

  /** A host that is neither empty nor a dash. */
  function Named(o: Option<string>): Option<string> {
    if o.Some? && o.value != "" && o.value != "-" then o else None
  }

  /** The address a text stands for, blanks aside. */
  function AddressIn(p: Parsers, s: string): Option<IpAddr> {
    p.ip(Trim(s))
  }

  ghost predicate Public(p: Parsers, s: string) {
    AddressIn(p, s).Some? && !p.isPrivate(AddressIn(p, s).value)
  }

  /** The first part of a kind. */
  ghost predicate FirstAt(parts: seq<string>, kind: string -> bool, i: int) {
    0 <= i < |parts| && kind(parts[i]) && forall j :: 0 <= j < i ==> !kind(parts[j])
  }

  ghost predicate NoneAt(parts: seq<string>, kind: string -> bool) {
    forall j :: 0 <= j < |parts| ==> !kind(parts[j])
  }

  /** The first public address of a forwarding list, else the remote address, else the first that parsed. */
  ghost predicate ForwardedChoice(p: Parsers, parts: seq<string>, remote: Option<string>, r: Option<IpAddr>) {
    var public, valid := (s: string) => Public(p, s), (s: string) => AddressIn(p, s).Some?;
    && (forall i :: FirstAt(parts, public, i) ==> r == AddressIn(p, parts[i]))
    && (NoneAt(parts, public) ==>
          if remote.Some? && AddressIn(p, remote.value).Some? then r == AddressIn(p, remote.value)
          else (forall i :: FirstAt(parts, valid, i) ==> r == AddressIn(p, parts[i]))
               && (NoneAt(parts, valid) ==> r == None))
  }

  /** The client's address: that of the proxy header's first part if it parses, else the choice from the
      forwarding header, else the remote address. */
  ghost predicate ClientRule(p: Parsers, cf: Option<string>, xff: Option<string>, remote: Option<string>,
                             r: Option<IpAddr>)
  {
    if cf.Some? && AddressIn(p, Parts(cf.value, ',')[0]).Some? then r == AddressIn(p, Parts(cf.value, ',')[0])
    else if xff.Some? then ForwardedChoice(p, Parts(xff.value, ','), remote, r)
    else r == if remote.Some? then AddressIn(p, remote.value) else None
  }

  lemma {:induction false} FirstOrNone(parts: seq<string>, kind: string -> bool, n: nat) returns (i: nat)
    requires n <= |parts| && forall j :: 0 <= j < n ==> !kind(parts[j])
    ensures FirstAt(parts, kind, i) || NoneAt(parts, kind)
    decreases |parts| - n
  {
    if n == |parts| || kind(parts[n]) {
      i := n;
    } else {
      i := FirstOrNone(parts, kind, n + 1);
    }
  }

  /** The rule leaves no choice. */
  lemma ClientRuleDecides(p: Parsers, cf: Option<string>, xff: Option<string>, remote: Option<string>,
                          r: Option<IpAddr>, r': Option<IpAddr>)
    requires ClientRule(p, cf, xff, remote, r) && ClientRule(p, cf, xff, remote, r')
    ensures r == r'
  {
    if xff.Some? {
      var i := FirstOrNone(Parts(xff.value, ','), (s: string) => Public(p, s), 0);
      var j := FirstOrNone(Parts(xff.value, ','), (s: string) => AddressIn(p, s).Some?, 0);
    }
  }

  /** The next word of a text from a place on. */
  ghost predicate WordAt(s: string, start: int, from: int, until: int) {
    && 0 <= start <= from < until <= |s|
    && (forall k :: start <= k < from ==> IsWhitespace(s[k]))
    && (forall k :: from <= k < until ==> !IsWhitespace(s[k]))
    && (until < |s| ==> IsWhitespace(s[until]))
  }

  ghost predicate BlankFrom(s: string, start: int) {
    forall k :: 0 <= start <= k < |s| ==> IsWhitespace(s[k])
  }

  ghost predicate FirstWord(s: string, w: string) {
    exists from, until :: WordAt(s, 0, from, until) && w == s[from..until]
  }

  ghost predicate SecondWord(s: string, w: string) {
    exists f, u, from, until :: WordAt(s, 0, f, u) && WordAt(s, u, from, until) && w == s[from..until]
  }

  ghost predicate AtMostOneWord(s: string) {
    BlankFrom(s, 0) || exists from, until :: WordAt(s, 0, from, until) && BlankFrom(s, until)
  }

  /** Method and path: from their own variables, else the first two words of the request, else GET and /. */
  ghost predicate RequestRule(method_: Option<string>, uri: Option<string>, request: string, verb: string,
                              path: string)
  {
    && (if method_.Some? then verb == method_.value
        else FirstWord(request, verb) || (BlankFrom(request, 0) && verb == "GET"))
    && (if uri.Some? then path == uri.value
        else SecondWord(request, path) || (AtMostOneWord(request) && path == "/"))
  }

  /** The entry says what the captures say. */
  ghost predicate Describes(p: Parsers, cs: seq<Capture>, e: Entry) {
    && e.referer == OrElse(LastValue(cs, HttpReferer), "")
    && e.userAgent == OrElse(LastValue(cs, HttpUserAgent), "")
    && e.status == (if Field(cs, Status).Some? && p.u16(Field(cs, Status).value).Some?
                    then p.u16(Field(cs, Status).value).value else 200)
    && e.host == Named(Field(cs, Host))
    && ClientRule(p, Field(cs, CfConnectingIp), Field(cs, XForwardedFor), Field(cs, RemoteAddr), Some(e.clientIp))
    && RequestRule(Field(cs, RequestMethod), Field(cs, RequestUri), OrElse(Field(cs, Request), ""), e.verb, e.path)
  }

  /** What the collected fields hold of addresses and requests. */
  ghost predicate CollectedClient(cs: seq<Capture>, f: Fields) {
    && f.cfIp == Field(cs, CfConnectingIp) && f.xff == Field(cs, XForwardedFor) && f.remoteAddr == Field(cs, RemoteAddr)
    && f.verb == Field(cs, RequestMethod) && f.path == Field(cs, RequestUri) && f.request == Field(cs, Request)
  }

  /** And of the rest. */
  ghost predicate CollectedRest(p: Parsers, cs: seq<Capture>, f: Fields) {
    && f.status == (if Field(cs, Status).Some? then p.u16(Field(cs, Status).value) else None)
    && f.referer == OrElse(LastValue(cs, HttpReferer), "")
    && f.userAgent == OrElse(LastValue(cs, HttpUserAgent), "")
    && f.host == Named(Field(cs, Host))
  }

  lemma LastValueSnoc(cs: seq<Capture>, c: Capture, v: LogVariable)
    ensures LastValue(cs + [c], v) == if c.variable == v then Some(c.value) else LastValue(cs, v)
  {
    assert (cs + [c])[..|cs|] == cs;
  }

  lemma {:induction false} ClientStep(p: Parsers, cs: seq<Capture>, c: Capture, f: Fields)
    requires CollectedClient(cs, f)
    ensures CollectedClient(cs + [c], Assign(p, c, f))
  {
    LastValueSnoc(cs, c, CfConnectingIp);
    LastValueSnoc(cs, c, XForwardedFor);
    LastValueSnoc(cs, c, RemoteAddr);
    LastValueSnoc(cs, c, RequestMethod);
    LastValueSnoc(cs, c, RequestUri);
    LastValueSnoc(cs, c, Request);
  }

  lemma {:induction false} RestStep(p: Parsers, cs: seq<Capture>, c: Capture, f: Fields)
    requires CollectedRest(p, cs, f)
    ensures CollectedRest(p, cs + [c], Assign(p, c, f))
  {
    LastValueSnoc(cs, c, Status);
    LastValueSnoc(cs, c, HttpReferer);
    LastValueSnoc(cs, c, HttpUserAgent);
    LastValueSnoc(cs, c, Host);
  }

  lemma NoField(v: LogVariable)
    ensures LastValue([], v) == None && Field([], v) == None
  {
  }

  lemma NoClientCollected()
    ensures CollectedClient([], NO_FIELDS)
  {
    NoField(CfConnectingIp);
    NoField(XForwardedFor);
    NoField(RemoteAddr);
    NoField(RequestMethod);
    NoField(RequestUri);
    NoField(Request);
  }

  lemma NoRestCollected(p: Parsers)
    ensures CollectedRest(p, [], NO_FIELDS)
  {
    NoField(Status);
    NoField(HttpReferer);
    NoField(HttpUserAgent);
    NoField(Host);
  }

  lemma {:induction false} FieldsCollected(p: Parsers, cs: seq<Capture>)
    ensures CollectedClient(cs, AssignAll(p, cs, NO_FIELDS)) && CollectedRest(p, cs, AssignAll(p, cs, NO_FIELDS))
  {
    if cs == [] {
      NoClientCollected();
      NoRestCollected(p);
    } else {
      var init, c := cs[..|cs| - 1], cs[|cs| - 1];
      assert cs == init + [c];
      FieldsCollected(p, init);
      AssignSnoc(p, init, c, NO_FIELDS);
      ClientStep(p, init, c, AssignAll(p, init, NO_FIELDS));
      RestStep(p, init, c, AssignAll(p, init, NO_FIELDS));
    }
  }

  /** What a later part adds to a choice whose first valid address may lie before it. */
  lemma {:induction false} XffMeaning(p: Parsers, parts: seq<string>, remote: Option<string>, first: Option<IpAddr>)
    ensures var r := XffIp(p, parts, remote, first);
            var public, valid := (s: string) => Public(p, s), (s: string) => AddressIn(p, s).Some?;
            && (forall i :: FirstAt(parts, public, i) ==> r == AddressIn(p, parts[i]))
            && (NoneAt(parts, public) ==>
                  if remote.Some? && AddressIn(p, remote.value).Some? then r == AddressIn(p, remote.value)
                  else if first.Some? then r == first
                  else (forall i :: FirstAt(parts, valid, i) ==> r == AddressIn(p, parts[i]))
                       && (NoneAt(parts, valid) ==> r == None))
  {
    if parts != [] {
      var ip := AddressIn(p, parts[0]);
      var tail := parts[1..];
      if !Public(p, parts[0]) {
        XffMeaning(p, tail, remote, if first.None? then ip else first);
        FirstInTail(parts, (s: string) => Public(p, s));
        if ip.None? {
          FirstInTail(parts, (s: string) => AddressIn(p, s).Some?);
        }
      }
    }
  }

  lemma FirstInTail(parts: seq<string>, kind: string -> bool)
    requires parts != [] && !kind(parts[0])
    ensures forall i :: FirstAt(parts, kind, i) ==> i > 0 && FirstAt(parts[1..], kind, i - 1)
    ensures NoneAt(parts, kind) <==> NoneAt(parts[1..], kind)
  {
    forall i | FirstAt(parts, kind, i) ensures i > 0 && FirstAt(parts[1..], kind, i - 1) {
      assert parts[1..][i - 1] == parts[i];
      forall j | 0 <= j < i - 1 ensures !kind(parts[1..][j]) {
        assert parts[1..][j] == parts[j + 1];
      }
    }
    if NoneAt(parts[1..], kind) {
      forall j | 0 <= j < |parts| ensures !kind(parts[j]) {
        if j > 0 {
          assert parts[j] == parts[1..][j - 1];
        }
      }
    }
  }

  /** What the token reader does to a text. */
  lemma {:induction false} TokenParts(t: string) returns (blank: string, u: string)
    ensures t == blank + u && IsBlank(blank) && (u != "" ==> !IsWhitespace(u[0]))
    ensures forall k :: 0 <= k < WordLength(u) ==> !IsWhitespace(u[k])
    ensures WordLength(u) < |u| ==> IsWhitespace(u[WordLength(u)])
    ensures Token(t) == (u[..WordLength(u)], u[WordLength(u)..])
  {
    u := TrimStart(t);
    TrimStartMeaning(t);
    blank := t[..|t| - |u|];
    WordLengthMeaning(u);
  }

  /** The token reader finds the next word. */
  lemma {:induction false} TokenMeaning(s: string, start: nat) returns (from: nat, until: nat)
    requires start <= |s|
    ensures start <= from <= until <= |s| && Token(s[start..]) == (s[from..until], s[until..])
    ensures Found(s, start, from, until)
  {
    var blank, u := TokenParts(s[start..]);
    SuffixOf(s, start, blank, u);
    from := |s| - |u|;
    until := from + WordLength(u);
    WordInSuffix(s, start, from, until, blank, u);
  }

  lemma SuffixOf(s: string, start: nat, blank: string, u: string)
    requires start <= |s| && s[start..] == blank + u
    ensures start + |blank| == |s| - |u| && s[|s| - |u|..] == u
  {
    assert s == s[..start] + (blank + u);
  }

  lemma {:induction false} WordInSuffix(s: string, start: nat, from: nat, until: nat, blank: string, u: string)
    requires start <= from <= until <= |s| && s[start..] == blank + u && from == start + |blank| && IsBlank(blank)
    requires s[from..] == u && until == from + WordLength(u)
    requires u != "" ==> !IsWhitespace(u[0])
    requires forall k :: 0 <= k < WordLength(u) ==> !IsWhitespace(u[k])
    requires WordLength(u) < |u| ==> IsWhitespace(u[WordLength(u)])
    ensures u[..WordLength(u)] == s[from..until] && u[WordLength(u)..] == s[until..]
    ensures Found(s, start, from, until)
  {
    forall k | start <= k < from ensures IsWhitespace(s[k]) {
      assert s[k] == s[start..][k - start] == blank[k - start];
    }
    forall k | from <= k < |s| ensures s[k] == u[k - from] {
    }
  }

  /** Two stretches of a text that a reader of words has found. */
  ghost predicate Found(s: string, start: int, from: int, until: int) {
    if from < until then WordAt(s, start, from, until) else from == until == |s| && BlankFrom(s, start)
  }

  lemma FirstFound(s: string, from: int, until: int)
    requires 0 <= from <= until <= |s| && Found(s, 0, from, until)
    ensures if s[from..until] == "" then BlankFrom(s, 0) && until == |s| else FirstWord(s, s[from..until])
  {
    assert from < until ==> WordAt(s, 0, from, until);
  }

  lemma SecondFound(s: string, from: int, until: int, from2: int, until2: int)
    requires 0 <= from <= until <= from2 <= until2 <= |s| && Found(s, 0, from, until) && Found(s, until, from2, until2)
    ensures if s[from2..until2] == "" then AtMostOneWord(s) else SecondWord(s, s[from2..until2])
  {
    if from < until {
      assert WordAt(s, 0, from, until);
      if from2 < until2 {
        assert WordAt(s, until, from2, until2);
      }
    }
  }

  /** The first two words of a request, as the token reader finds them. */
  lemma TwoTokens(s: string) returns (from: nat, until: nat, from2: nat, until2: nat)
    ensures 0 <= from <= until <= from2 <= until2 <= |s|
    ensures Found(s, 0, from, until) && Found(s, until, from2, until2)
    ensures Token(s) == (s[from..until], s[until..]) && Token(s[until..]).0 == s[from2..until2]
  {
    from, until := TokenMeaning(s, 0);
    assert s[0..] == s;
    from2, until2 := TokenMeaning(s, until);
  }

  lemma RequestPartsRule(f: Fields)
    requires f.verb.Some? ==> Trim(f.verb.value) == f.verb.value
    requires f.path.Some? ==> Trim(f.path.value) == f.path.value
    ensures RequestRule(f.verb, f.path, OrElse(f.request, ""), RequestParts(f).0, RequestParts(f).1)
  {
    var s := OrElse(f.request, "");
    var from, until, from2, until2 := TwoTokens(s);
    FirstFound(s, from, until);
    SecondFound(s, from, until, from2, until2);
  }

  /** The entry built from captures says what they say; there is none exactly when they name no client. */
  lemma {:induction false} EntryMeaning(p: Parsers, cs: seq<Capture>)
    ensures var e := EntryOf(p, AssignAll(p, cs, NO_FIELDS));
            && (e.Some? ==> Describes(p, cs, e.value))
            && (e.None? ==> ClientRule(p, Field(cs, CfConnectingIp), Field(cs, XForwardedFor), Field(cs, RemoteAddr),
                                       None))
  {
    var f := AssignAll(p, cs, NO_FIELDS);
    FieldsCollected(p, cs);
    FieldsTrimmed(cs, RequestMethod);
    FieldsTrimmed(cs, RequestUri);
    RequestPartsRule(f);
    if f.xff.Some? {
      XffMeaning(p, Parts(f.xff.value, ','), f.remoteAddr, None);
    }
  }

  lemma FieldsTrimmed(cs: seq<Capture>, v: LogVariable)
    ensures Field(cs, v).Some? ==> Trim(Field(cs, v).value) == Field(cs, v).value
  {
    if LastValue(cs, v).Some? {
      TrimTwice(LastValue(cs, v).value);
    }
  }

  /** The captures explain the line, and the entry says what they say. */
  ghost predicate Reads(p: Parsers, segs: seq<Segment>, line: string, cs: seq<Capture>, e: Entry) {
    Explains(segs, cs, TrimLineEnd(line)) && Describes(p, cs, e)
  }

  /** A line has no entry: it is blank, does not fit the format, or names no client. */
  ghost predicate HasNoEntry(p: Parsers, segs: seq<Segment>, line: string) {
    var clean := TrimLineEnd(line);
    || Trim(clean) == ""
    || Split(segs, clean, None).None?
    || var cs := Split(segs, clean, None).value;
       ClientRule(p, Field(cs, CfConnectingIp), Field(cs, XForwardedFor), Field(cs, RemoteAddr), None)
  }

  /** The right answer for a line. */
  ghost predicate RightEntry(p: Parsers, segs: seq<Segment>, line: string, r: Option<Entry>) {
    && (r.None? <==> HasNoEntry(p, segs, line))
    && (r.Some? ==> exists cs :: Reads(p, segs, line, cs, r.value))
  }

  lemma {:induction false} SplitMeaning(p: Parsers, segs: seq<Segment>, line: string, cs: seq<Capture>)
    requires Split(segs, TrimLineEnd(line), None) == Some(cs)
    ensures var e := EntryOf(p, AssignAll(p, cs, NO_FIELDS));
            && (e.Some? ==> Reads(p, segs, line, cs, e.value))
            && (e.None? <==> ClientRule(p, Field(cs, CfConnectingIp), Field(cs, XForwardedFor), Field(cs, RemoteAddr),
                                        None))
  {
    EntryMeaning(p, cs);
    SplitExplains(segs, TrimLineEnd(line), None);
    assert Waiting(None, segs) == segs;
    var e := EntryOf(p, AssignAll(p, cs, NO_FIELDS));
    var cf, xff, remote := Field(cs, CfConnectingIp), Field(cs, XForwardedFor), Field(cs, RemoteAddr);
    if e.Some? && ClientRule(p, cf, xff, remote, None) {
      ClientRuleDecides(p, cf, xff, remote, None, Some(e.value.clientIp));
    }
  }

  lemma {:induction false} LineMeaning(p: Parsers, segs: seq<Segment>, line: string)
    ensures RightEntry(p, segs, line, ParsedLine(p, segs, line))
  {
    var clean := TrimLineEnd(line);
    if Trim(clean) != "" && Split(segs, clean, None).Some? {
      SplitMeaning(p, segs, line, Split(segs, clean, None).value);
    }
  }

  method ReadLine(p: Parsers, segs: seq<Segment>, line: string) returns (r: Option<Entry>)
    ensures r == ParsedLine(p, segs, line)
  {
    var clean := TrimLineEnd(line);
    if Trim(clean) == "" {
      return None;
    }
    var fields := FillFields(p, segs, clean);
    if fields.None? {
      return None;
    }
    r := EntryOf(p, fields.value);
  }

  method ParseDelimitedLine(p: Parsers, segs: seq<Segment>, line: string) returns (r: Option<Entry>)
    ensures r == ParsedLine(p, segs, line) && RightEntry(p, segs, line, r)
  {
    r := ReadLine(p, segs, line);
    LineMeaning(p, segs, line);
  }

  lemma SplitAt(segs: seq<Segment>, clean: string, i: nat, cursor: nat, pending: Option<LogVariable>)
    requires i < |segs| && cursor <= |clean|
    ensures var step := MatchSegment(segs[i], clean[cursor..], pending);
            Split(segs[i..], clean[cursor..], pending)
            == if step.None? then None
               else After(step.value.captured,
                          Split(segs[i + 1..], clean[cursor + step.value.consumed..], step.value.pending))
  {
    assert segs[i..][1..] == segs[i + 1..];
    var step := MatchSegment(segs[i], clean[cursor..], pending);
    if step.Some? {
      assert clean[cursor..][step.value.consumed..] == clean[cursor + step.value.consumed..];
    }
  }

  ghost function Extend(done: seq<Capture>, rest: Option<seq<Capture>>): Option<seq<Capture>> {
    match rest
    case Some(cs) => Some(done + cs)
    case None => None
  }

  lemma ExtendNil(rest: Option<seq<Capture>>)
    ensures Extend([], rest) == rest
  {
    if rest.Some? {
      assert [] + rest.value == rest.value;
    }
  }

  lemma ExtendSnoc(done: seq<Capture>, c: Capture, rest: Option<seq<Capture>>)
    ensures Extend(done, Prepend(c, rest)) == Extend(done + [c], rest)
  {
    if rest.Some? {
      assert done + ([c] + rest.value) == (done + [c]) + rest.value;
    }
  }

  lemma {:induction false} AssignSnoc(p: Parsers, cs: seq<Capture>, c: Capture, f: Fields)
    ensures AssignAll(p, cs + [c], f) == Assign(p, c, AssignAll(p, cs, f))
  {
    if cs == [] {
      assert [] + [c] == [c] && [c][1..] == [];
    } else {
      assert (cs + [c])[1..] == cs[1..] + [c];
      AssignSnoc(p, cs[1..], c, Assign(p, cs[0], f));
    }
  }

  /** A line that parses is its format's literals and the captured values concatenated in order, with a rest
      only after a final literal; the entry says what exactly those values say. */
  lemma ParsedLineExplained(p: Parsers, segs: seq<Segment>, line: string) returns (cs: seq<Capture>)
    requires ParsedLine(p, segs, line).Some?
    ensures Reads(p, segs, line, cs, ParsedLine(p, segs, line).value)
  {
    cs := Split(segs, TrimLineEnd(line), None).value;
    SplitMeaning(p, segs, line, cs);
  }

  predicate IsLineEnd(c: char) {
    c == '\r' || c == '\n'
  }

  ghost predicate LineEnds(ends: string) {
    forall i :: 0 <= i < |ends| ==> IsLineEnd(ends[i])
  }

  /** Line ends are taken off the end of a line, however many there are, and nothing else. */
  lemma {:induction false} LineEndsDropped(clean: string, ends: string)
    requires LineEnds(ends) && (clean != "" ==> !IsLineEnd(clean[|clean| - 1]))
    ensures TrimLineEnd(clean + ends) == clean
    decreases |ends|
  {
    if ends == "" {
      assert clean + ends == clean;
    } else {
      var line := clean + ends;
      assert line[..|line| - 1] == clean + ends[..|ends| - 1];
      LineEndsDropped(clean, ends[..|ends| - 1]);
    }
  }

  /** Conversely a rendered line, with any line ends, parses to an entry that says what its values say, or to
      none if they name no client. The values must be delimited, and the text neither blank nor ending in a
      line end of its own. */
  lemma RenderedLineParses(p: Parsers, segs: seq<Segment>, cs: seq<Capture>, more: string, ends: string)
    requires NoAdjacentVariables(segs) && Delimited(segs, cs) && (more != "" ==> MayLeaveRest(segs))
    requires var line := Rendered(segs, cs) + more; Trim(line) != "" && !IsLineEnd(line[|line| - 1])
    requires LineEnds(ends)
    ensures var r := ParsedLine(p, segs, Rendered(segs, cs) + more + ends);
            if r.Some? then Describes(p, cs, r.value)
            else ClientRule(p, Field(cs, CfConnectingIp), Field(cs, XForwardedFor), Field(cs, RemoteAddr), None)
  {
    var line := Rendered(segs, cs) + more;
    LineEndsDropped(line, ends);
    RenderThenSplit(segs, cs, more);
    SplitMeaning(p, segs, line + ends, cs);
  }

  // ----- variables with nothing between them

  lemma {:induction false} FindSpace(value: string, after: string)
    requires ' ' !in value && (after == "" || after[0] == ' ')
    ensures Find(value + after, " ") == if after == "" then None else Some(|value|)
  {
    var s := value + after;
    if value == "" {
      assert s == after;
    } else {
      assert s[1..] == value[1..] + after && s[0] == value[0] && value[0] in value;
      FindSpace(value[1..], after);
    }
  }

  lemma {:induction false} NextSpaceOf(value: string, after: string)
    requires ' ' !in value && (after == "" || after[0] == ' ')
    ensures NextSpace(value + after) == |value|
  {
    FindSpace(value, after);
  }

  /** A variable that another one follows takes the text up to the next space. */
  lemma AdjacentVariableTakesWord(v: LogVariable, w: LogVariable, tail: seq<Segment>, value: string, after: string)
    requires ' ' !in value && (after == "" || after[0] == ' ')
    ensures Split([Variable(v), Variable(w)] + tail, value + after, None)
         == Prepend(Capture(v, value), Split([Variable(w)] + tail, after, None))
  {
    var s := value + after;
    assert [Variable(v), Variable(w)] + tail == [Variable(v)] + ([Variable(w)] + tail);
    SplitVariable(v, [Variable(w)] + tail, s);
    SplitVariable(w, tail, after);
    NextSpaceOf(value, after);
    assert ([Variable(w)] + tail)[1..] == tail && s[..|value|] == value && s[|value|..] == after;
  }
}
