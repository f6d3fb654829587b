/** The configuration lexer and the `log_format` directive parser (src/discovery/crawler.rs). */
module Directives {
  import opened Text
  import opened Wrappers

  // ----- the lexer

  /** The lexer's flags with the buffer and the directives it fills. */
  datatype Lexed = Lexed(inSingle: bool, inDouble: bool, inComment: bool, escaped: bool,
                         buf: string, directives: seq<string>)

  const START := Lexed(false, false, false, false, "", [])

  function Flushed(directives: seq<string>, buf: string): seq<string> {
    if Trim(buf) == "" then directives else directives + [Trim(buf)]
  }

  /** What one character does. Outside comments and escapes `;`, `#`, `{` and `}` act even within quotes. */
  function LexStep(s: Lexed, ch: char): Lexed {
    if s.inComment then s.(inComment := ch != '\n')
    else if s.escaped then s.(buf := s.buf + [ch], escaped := false)
    else if ch == '\\' && (s.inSingle || s.inDouble) then s.(buf := s.buf + [ch], escaped := true)
    else if ch == '\'' && !s.inDouble then s.(inSingle := !s.inSingle, buf := s.buf + [ch])
    else if ch == '"' && !s.inSingle then s.(inDouble := !s.inDouble, buf := s.buf + [ch])
    else if ch == '#' then s.(inComment := true)
    else if ch == ';' then s.(directives := Flushed(s.directives, s.buf), buf := "")
    else if ch == '{' || ch == '}' then s.(buf := "")
    else s.(buf := s.buf + [ch])
  }

  function LexAll(s: Lexed, text: string): Lexed {
    if text == "" then s else LexStep(LexAll(s, text[..|text| - 1]), text[|text| - 1])
  }

  /** The directives of a file. */
  function Extracted(content: string): seq<string> {
    var s := LexAll(START, content);
    Flushed(s.directives, s.buf)
  }

  class DirectiveLexer {
    var inSingleQuote: bool
    var inDoubleQuote: bool
    var inComment: bool
    var escaped: bool
    var buf: string
    var directives: seq<string>

    constructor ()
      ensures State() == START
    {
      inSingleQuote, inDoubleQuote, inComment, escaped := false, false, false, false;
      buf, directives := "", [];
    }

    ghost function State(): Lexed
      reads this
    {
      Lexed(inSingleQuote, inDoubleQuote, inComment, escaped, buf, directives)
    }

    method Step(ch: char)
      modifies this
      ensures State() == LexStep(old(State()), ch)
    {
      if inComment {
        if ch == '\n' {
          inComment := false;
        }
        return;
      }
      if escaped {
        buf := buf + [ch];
        escaped := false;
        return;
      }
      if ch == '\\' && (inSingleQuote || inDoubleQuote) {
        buf := buf + [ch];
        escaped := true;
        return;
      }
      var handled := HandleQuote(ch);
      if handled {
        return;
      }
      HandleUnquoted(ch);
    }

    method HandleQuote(ch: char) returns (handled: bool)
      modifies this
      ensures handled <==> (ch == '\'' && !old(inDoubleQuote)) || (ch == '"' && !old(inSingleQuote))
      ensures State() == if !handled then old(State())
                         else if ch == '\'' then old(State()).(inSingle := !old(inSingleQuote), buf := old(buf) + [ch])
                         else old(State()).(inDouble := !old(inDoubleQuote), buf := old(buf) + [ch])
    {
      if ch == '\'' && !inDoubleQuote {
        inSingleQuote := !inSingleQuote;
        buf := buf + [ch];
        handled := true;
      } else if ch == '"' && !inSingleQuote {
        inDoubleQuote := !inDoubleQuote;
        buf := buf + [ch];
        handled := true;
      } else {
        handled := false;
      }
    }

    method HandleUnquoted(ch: char)
      modifies this
      ensures State() == if ch == '#' then old(State()).(inComment := true)
                         else if ch == ';' then
                           old(State()).(directives := Flushed(old(directives), old(buf)), buf := "")
                         else if ch == '{' || ch == '}' then old(State()).(buf := "")
                         else old(State()).(buf := old(buf) + [ch])
    {
      if ch == '#' {
        inComment := true;
      } else if ch == ';' {
        var trimmed := Trim(buf);
        if trimmed != "" {
          directives := directives + [trimmed];
        }
        buf := "";
      } else if ch == '{' || ch == '}' {
        buf := "";
      } else {
        buf := buf + [ch];
      }
    }
  }

  method ExtractDirectives(content: string) returns (directives: seq<string>)
    ensures directives == Extracted(content)
  {
    var lexer := new DirectiveLexer();
    for i := 0 to |content|
      invariant lexer.State() == LexAll(START, content[..i])
      invariant fresh(lexer)
    {
      assert content[..i + 1][..i] == content[..i];
      lexer.Step(content[i]);
    }
    assert content[..|content|] == content;
    directives := lexer.directives;
    var trimmed := Trim(lexer.buf);
    if trimmed != "" {
      directives := directives + [trimmed];
    }
  }

  // ----- format bodies

  /** The argument after an opening quote, and the text after its closing quote. */
  function QuotedArg(s: string, quote: char, escaped: bool): (r: (string, string))
    ensures |r.1| <= |s|
  {
    if s == "" then ("", "")
    else if !escaped && s[0] == '\\' then QuotedArg(s[1..], quote, true)
    else if !escaped && s[0] == quote then ("", s[1..])
    else
      var (arg, rest) := QuotedArg(s[1..], quote, false);
      ([s[0]] + arg, rest)
  }

  function UnquotedLength(s: string): (n: nat)
    ensures n <= |s|
  {
    if s == "" || IsWhitespace(s[0]) || s[0] == ';' then 0 else 1 + UnquotedLength(s[1..])
  }

  function Prefixed(arg: string, rest: Option<string>): Option<string> {
    match rest
    case Some(t) => Some(arg + t)
    case None => None
  }

  /** The argument loop between two turns: the text still to be read, and the arguments so far. */
  datatype BodyScan = BodyScan(rest: string, body: string)

  /** One turn of the loop. An unquoted argument that starts at a semicolon is empty. */
  function Turn(s: BodyScan): BodyScan {
    if s.rest == "" then s
    else if IsWhitespace(s.rest[0]) then BodyScan(s.rest[1..], s.body)
    else if s.rest[0] == '\'' || s.rest[0] == '"' then
      var (arg, left) := QuotedArg(s.rest[1..], s.rest[0], false);
      BodyScan(left, s.body + arg)
    else
      var n := UnquotedLength(s.rest);
      BodyScan(s.rest[n..], s.body + s.rest[..n])
  }

  function Turns(s: BodyScan, n: nat): BodyScan
    decreases n
  {
    if n == 0 then s else Turns(Turn(s), n - 1)
  }

  /** The loop never runs out of text. */
  ghost predicate LoopsForever(raw: string) {
    forall n :: Turns(BodyScan(raw, ""), n).rest != ""
  }

  /** The concatenated arguments of a format body, or none when an argument starts at a semicolon. */
  function FormatBody(raw: string): Option<string>
    decreases |raw|
  {
    if raw == "" then Some("")
    else if IsWhitespace(raw[0]) then FormatBody(raw[1..])
    else if raw[0] == '\'' || raw[0] == '"' then
      var (arg, rest) := QuotedArg(raw[1..], raw[0], false);
      Prefixed(arg, FormatBody(rest))
    else if raw[0] == ';' then None
    else
      var n := UnquotedLength(raw);
      Prefixed(raw[..n], FormatBody(raw[n..]))
  }

  /** Where a scan of a format body stands. */
  datatype Mode = Between | Unquoted | Quoted(quote: char, escaped: bool)

  /** A semicolon stands outside every quoted argument. */
  predicate BareSemicolon(raw: string, mode: Mode) {
    if raw == "" then false
    else
      var c, rest := raw[0], raw[1..];
      match mode
      case Between =>
        if IsWhitespace(c) then BareSemicolon(rest, Between)
        else if c == '\'' || c == '"' then BareSemicolon(rest, Quoted(c, false))
        else c == ';' || BareSemicolon(rest, Unquoted)
      case Unquoted =>
        c == ';' || BareSemicolon(rest, if IsWhitespace(c) then Between else Unquoted)
      case Quoted(q, escaped) =>
        if escaped then BareSemicolon(rest, Quoted(q, false))
        else if c == '\\' then BareSemicolon(rest, Quoted(q, true))
        else BareSemicolon(rest, if c == q then Between else Quoted(q, false))
  }

  lemma {:induction false} QuotedArgScan(s: string, quote: char, escaped: bool)
    ensures BareSemicolon(s, Quoted(quote, escaped)) == BareSemicolon(QuotedArg(s, quote, escaped).1, Between)
  {
    if s != "" && (escaped || s[0] != quote || s[0] == '\\') {
      QuotedArgScan(s[1..], quote, !escaped && s[0] == '\\');
    }
  }

  lemma {:induction false} UnquotedScan(s: string)
    ensures BareSemicolon(s, Unquoted) == BareSemicolon(s[UnquotedLength(s)..], Between)
  {
    if s != "" && !IsWhitespace(s[0]) && s[0] != ';' {
      UnquotedScan(s[1..]);
      assert s[UnquotedLength(s)..] == s[1..][UnquotedLength(s[1..])..];
    } else {
      assert s[0..] == s;
    }
  }

  lemma {:induction false} SomeBodyIffNoBareSemicolon(raw: string)
    ensures FormatBody(raw).Some? <==> !BareSemicolon(raw, Between)
    decreases |raw|
  {
    if raw == "" {
    } else if IsWhitespace(raw[0]) {
      SomeBodyIffNoBareSemicolon(raw[1..]);
    } else if raw[0] == '\'' || raw[0] == '"' {
      QuotedArgScan(raw[1..], raw[0], false);
      SomeBodyIffNoBareSemicolon(QuotedArg(raw[1..], raw[0], false).1);
    } else if raw[0] != ';' {
      var n := UnquotedLength(raw);
      UnquotedScan(raw[1..]);
      assert raw[n..] == raw[1..][UnquotedLength(raw[1..])..];
      SomeBodyIffNoBareSemicolon(raw[n..]);
    }
  }

  /** A turn neither adds nor removes a bare semicolon ahead. */
  lemma TurnScan(s: BodyScan)
    ensures BareSemicolon(Turn(s).rest, Between) == BareSemicolon(s.rest, Between)
  {
    var raw := s.rest;
    if raw != "" && !IsWhitespace(raw[0]) {
      if raw[0] == '\'' || raw[0] == '"' {
        QuotedArgScan(raw[1..], raw[0], false);
      } else if raw[0] != ';' {
        UnquotedScan(raw[1..]);
        assert raw[UnquotedLength(raw)..] == raw[1..][UnquotedLength(raw[1..])..];
      } else {
        assert raw[0..] == raw;
      }
    }
  }

  lemma {:induction false} BareSemicolonStaysAhead(s: BodyScan, n: nat)
    requires BareSemicolon(s.rest, Between)
    ensures BareSemicolon(Turns(s, n).rest, Between)
    decreases n
  {
    if n > 0 {
      TurnScan(s);
      BareSemicolonStaysAhead(Turn(s), n - 1);
    }
  }

  lemma TurnAdvances(s: BodyScan)
    requires s.rest != "" && FormatBody(s.rest).Some?
    ensures var t := Turn(s);
            && |t.rest| < |s.rest| && FormatBody(t.rest).Some?
            && s.body + FormatBody(s.rest).value == t.body + FormatBody(t.rest).value
  {
    var t := Turn(s);
    if !IsWhitespace(s.rest[0]) {
      var arg := if s.rest[0] == '\'' || s.rest[0] == '"' then QuotedArg(s.rest[1..], s.rest[0], false).0
                 else s.rest[..UnquotedLength(s.rest)];
      assert s.body + (arg + FormatBody(t.rest).value) == (s.body + arg) + FormatBody(t.rest).value;
    }
  }

  lemma {:induction false} TurnsWhenDone(s: BodyScan, n: nat)
    requires s.rest == ""
    ensures Turns(s, n) == s
    decreases n
  {
    if n > 0 {
      TurnsWhenDone(s, n - 1);
    }
  }

  /** Without a bare semicolon the loop ends with the body, in at most one turn for each character. */
  lemma {:induction false} EnoughTurns(s: BodyScan, n: nat)
    requires FormatBody(s.rest).Some? && n >= |s.rest|
    ensures Turns(s, n) == BodyScan("", s.body + FormatBody(s.rest).value)
    decreases n
  {
    if s.rest == "" {
      TurnsWhenDone(s, n);
      assert s.body + "" == s.body;
    } else {
      TurnAdvances(s);
      EnoughTurns(Turn(s), n - 1);
    }
  }

  /** The argument loop runs forever exactly when a semicolon stands outside every quoted argument, and
      otherwise ends with the body. */
  lemma ReturnsIffNoBareSemicolon(raw: string)
    ensures LoopsForever(raw) <==> BareSemicolon(raw, Between)
    ensures FormatBody(raw).Some? <==> !LoopsForever(raw)
    ensures FormatBody(raw).Some? ==> Turns(BodyScan(raw, ""), |raw|) == BodyScan("", FormatBody(raw).value)
  {
    SomeBodyIffNoBareSemicolon(raw);
    var start := BodyScan(raw, "");
    if BareSemicolon(raw, Between) {
      forall n ensures Turns(start, n).rest != "" {
        BareSemicolonStaysAhead(start, n);
      }
    } else {
      EnoughTurns(start, |raw|);
      assert "" + FormatBody(raw).value == FormatBody(raw).value;
    }
  }

  method ParseQuotedFormatArg(raw: string, at: nat, quote: char) returns (arg: string, next: nat)
    requires at < |raw|
    ensures at < next <= |raw| && (arg, raw[next..]) == QuotedArg(raw[at + 1..], quote, false)
  {
    next := at + 1;
    arg := "";
    var escaped := false;
    ghost var all := QuotedArg(raw[at + 1..], quote, false);
    assert "" + all.0 == all.0;
    while next < |raw|
      invariant at < next <= |raw|
      invariant var (rest, left) := QuotedArg(raw[next..], quote, escaped); all == (arg + rest, left)
    {
      var ch := raw[next];
      assert raw[next..][1..] == raw[next + 1..];
      ghost var (rest, left) := QuotedArg(raw[next + 1..], quote, !escaped && ch == '\\');
      assert arg + ([ch] + rest) == (arg + [ch]) + rest;
      next := next + 1;
      if escaped {
        arg := arg + [ch];
        escaped := false;
      } else if ch == '\\' {
        escaped := true;
      } else if ch == quote {
        break;
      } else {
        arg := arg + [ch];
      }
    }
    assert arg + "" == arg;
    assert next == |raw| ==> raw[next..] == "";
  }

  method ParseUnquotedFormatArg(raw: string, at: nat) returns (arg: string, next: nat)
    requires at <= |raw|
    ensures next == at + UnquotedLength(raw[at..]) && next <= |raw| && arg == raw[at..next]
  {
    arg, next := "", at;
    while next < |raw|
      invariant at <= next <= |raw| && arg == raw[at..next]
      invariant UnquotedLength(raw[at..]) == (next - at) + UnquotedLength(raw[next..])
    {
      var ch := raw[next];
      if IsWhitespace(ch) || ch == ';' {
        break;
      }
      assert raw[next..][1..] == raw[next + 1..];
      next := next + 1;
      arg := arg + [ch];
    }
    assert next < |raw| ==> raw[next..][0] == raw[next];
    assert next == |raw| ==> raw[next..] == "";
  }

  /** One turn of the argument loop, at `raw[i..]`. */
  method TakeFormatArg(raw: string, i: nat, args: string) returns (next: nat, body: string)
    requires i < |raw|
    ensures i <= next <= |raw| && BodyScan(raw[next..], body) == Turn(BodyScan(raw[i..], args))
  {
    var c := raw[i];
    assert raw[i..][1..] == raw[i + 1..];
    if IsWhitespace(c) {
      return i + 1, args;
    }
    var arg;
    if c == '\'' || c == '"' {
      arg, next := ParseQuotedFormatArg(raw, i, c);
    } else {
      arg, next := ParseUnquotedFormatArg(raw, i);
      assert raw[i..][UnquotedLength(raw[i..])..] == raw[next..] && raw[i..][..UnquotedLength(raw[i..])] == arg;
    }
    body := args + arg;
  }

  lemma {:induction false} TurnsSnoc(s: BodyScan, n: nat)
    ensures Turns(s, n + 1) == Turn(Turns(s, n))
    decreases n
  {
    if n > 0 {
      TurnsSnoc(Turn(s), n - 1);
    }
  }

  /** The first `limit` turns of the argument loop of the source, on any body. */
  method ParseNginxFormatBody(raw: string, limit: nat) returns (done: bool, body: string)
    ensures Turns(BodyScan(raw, ""), limit).body == body
    ensures done <==> Turns(BodyScan(raw, ""), limit).rest == ""
  {
    body := "";
    var i: nat := 0;
    ghost var start := BodyScan(raw, "");
    assert raw[0..] == raw;
    var turn := 0;
    while i < |raw| && turn < limit
      invariant i <= |raw| && turn <= limit
      invariant BodyScan(raw[i..], body) == Turns(start, turn)
      decreases limit - turn
    {
      TurnsSnoc(start, turn);
      i, body := TakeFormatArg(raw, i, body);
      turn := turn + 1;
    }
    done := i == |raw|;
    if done {
      TurnsWhenDone(BodyScan("", body), limit - turn);
      TurnsAdd(start, turn, limit - turn);
    }
  }

  lemma {:induction false} TurnsAdd(s: BodyScan, m: nat, n: nat)
    ensures Turns(s, m + n) == Turns(Turns(s, m), n)
    decreases m
  {
    if m > 0 {
      TurnsAdd(Turn(s), m - 1, n);
    }
  }

  // ----- the directive

  datatype Parsed = NotLogFormat | Named(name: string, body: string) | NeverReturns

  function TrimSemicolons(s: string): string {
    if s != "" && s[0] == ';' then TrimSemicolons(s[1..])
    else if s != "" && s[|s| - 1] == ';' then TrimSemicolons(s[..|s| - 1])
    else s
  }

  ghost predicate AllSemicolons(s: string) {
    forall i :: 0 <= i < |s| ==> s[i] == ';'
  }

  /** Semicolons are taken off both ends, and nothing else. */
  lemma {:induction false} TrimSemicolonsMeaning(s: string) returns (before: string, after: string)
    ensures s == before + TrimSemicolons(s) + after && AllSemicolons(before) && AllSemicolons(after)
    ensures TrimSemicolons(s) != "" ==>
              TrimSemicolons(s)[0] != ';' && TrimSemicolons(s)[|TrimSemicolons(s)| - 1] != ';'
    decreases |s|
  {
    if s != "" && s[0] == ';' {
      before, after := TrimSemicolonsMeaning(s[1..]);
      assert s == [';'] + s[1..];
      before := [';'] + before;
    } else if s != "" && s[|s| - 1] == ';' {
      before, after := TrimSemicolonsMeaning(s[..|s| - 1]);
      assert s == s[..|s| - 1] + [';'];
      after := after + [';'];
    } else {
      before, after := "", "";
    }
  }

  function BodyPart(afterName: string): string {
    var part := TrimStart(afterName);
    if "escape=" <= part then TrimStart(part[WordLength(part)..]) else part
  }

  function AfterKeyword(directive: string): string {
    if "log_format" <= directive then TrimStart(directive[10..]) else ""
  }

  /** The first word after the keyword. */
  function FormatName(directive: string): string {
    var rest := AfterKeyword(directive);
    TrimSemicolons(Trim(rest[..WordLength(rest)]))
  }

  /** The text handed to the argument loop. */
  function FormatText(directive: string): string {
    var rest := AfterKeyword(directive);
    var n := WordLength(rest);
    BodyPart(if n < |rest| then rest[n + 1..] else "")
  }

  predicate NamesFormat(directive: string) {
    "log_format" <= directive && FormatName(directive) != ""
  }

  function ParseLogFormat(directive: string): Parsed {
    if NamesFormat(directive) then NamedBody(FormatName(directive), FormatBody(FormatText(directive)))
    else NotLogFormat
  }

  function NamedBody(name: string, body: Option<string>): Parsed {
    match body
    case Some(b) => Named(name, b)
    case None => NeverReturns
  }

  // ----- printing directives

  predicate IsQuote(c: char) {
    c == '\'' || c == '"'
  }

  /** Characters the lexer acts on within a quoted argument. */
  predicate NeedsEscape(c: char, quote: char) {
    c == '\\' || c == quote || c == ';' || c == '#' || c == '{' || c == '}'
  }

  function EscapeChar(c: char, quote: char): string {
    if NeedsEscape(c, quote) then ['\\', c] else [c]
  }

  function Escape(text: string, quote: char): string {
    if text == "" then "" else EscapeChar(text[0], quote) + Escape(text[1..], quote)
  }

  /** One argument, quoted or bare, the whitespace before it, and the comments before that. */
  datatype Piece =
    | Piece(gap: string, quote: char, text: string, comments: seq<string> := [])
    | BarePiece(gap: string, text: string, comments: seq<string> := [])
  {
    ghost predicate Valid() {
      && IsBlank(gap) && (forall c :: c in comments ==> '\n' !in c)
      && if Piece? then IsQuote(quote) else PlainWord(text)
    }
  }

  /** A bare argument ends where whitespace follows. */
  ghost predicate Arranged(ps: seq<Piece>) {
    forall i :: 0 < i < |ps| && ps[i - 1].BarePiece? ==> ps[i].gap != ""
  }

  function PrintComments(comments: seq<string>): string {
    if comments == [] then "" else "#" + comments[0] + "\n" + PrintComments(comments[1..])
  }

  function PrintPiece(p: Piece): string {
    match p
    case Piece(gap, quote, text, _) => gap + [quote] + Escape(text, quote) + [quote]
    case BarePiece(gap, text, _) => gap + text
  }

  /** A piece as it stands in the file; the lexer drops the comments. */
  function SourcePiece(p: Piece): string {
    PrintComments(p.comments) + PrintPiece(p)
  }

  function SourcePieces(ps: seq<Piece>): string {
    if ps == [] then "" else SourcePiece(ps[0]) + SourcePieces(ps[1..])
  }

  function PrintPieces(ps: seq<Piece>): string {
    if ps == [] then "" else PrintPiece(ps[0]) + PrintPieces(ps[1..])
  }

  function TextOf(ps: seq<Piece>): string {
    if ps == [] then "" else ps[0].text + TextOf(ps[1..])
  }

  ghost predicate AllValid(ps: seq<Piece>) {
    forall p :: p in ps ==> p.Valid()
  }

  /** A character that stands for itself outside quotes. */
  predicate IsPlain(c: char) {
    c != '\'' && c != '"' && c != '#' && c != ';' && c != '{' && c != '}'
  }

  ghost predicate PlainText(s: string) {
    forall i :: 0 <= i < |s| ==> IsPlain(s[i])
  }

  ghost predicate PlainWord(s: string) {
    s != "" && forall i :: 0 <= i < |s| ==> IsPlain(s[i]) && !IsWhitespace(s[i])
  }

  /** A `log_format` directive: its name, an optional escape option, and the body in one or more pieces. */
  datatype Directive = Directive(name: string, escape: Option<string>, pieces: seq<Piece>) {
    ghost predicate Valid() {
      && PlainWord(name) && AllValid(pieces) && Arranged(pieces) && pieces != []
      && (escape.None? && pieces[0].BarePiece? ==> !("escape=" <= pieces[0].text))
      && (escape.Some? ==> PlainWord("escape=" + escape.value))
    }

    function OptionText(): string {
      if escape.Some? then "escape=" + escape.value + " " else ""
    }

    function Head(): string {
      "log_format " + name + " " + OptionText()
    }

    /** The directive as the lexer hands it over. */
    function Text(): string {
      Head() + PrintPieces(pieces)
    }

    /** And as it stands in the file. */
    function Source(): string {
      Head() + SourcePieces(pieces)
    }
  }

  datatype Item =
    | Format(directive: Directive)
    | Simple(words: string)  // any other directive without quotes
    | Comment(text: string)
    | Space(blank: string)
    | Open(words: string)   // a block header and its opening brace
    | Close(words: string)  // the brace that ends a block, which discards what is before it

  ghost predicate ValidItem(item: Item) {
    match item
    case Format(d) => d.Valid()
    case Simple(words) => PlainText(words) && !("log_format" <= Trim(words))
    case Comment(text) => '\n' !in text
    case Space(blank) => IsBlank(blank)
    case Open(words) => PlainText(words)
    case Close(words) => PlainText(words)
  }

  function PrintItem(item: Item): string {
    match item
    case Format(d) => d.Source() + ";"
    case Simple(words) => words + ";"
    case Comment(text) => "#" + text + "\n"
    case Space(blank) => blank
    case Open(words) => words + "{"
    case Close(words) => words + "}"
  }

  function PrintFile(items: seq<Item>): string {
    if items == [] then "" else PrintItem(items[0]) + PrintFile(items[1..])
  }

  function ItemTexts(item: Item): seq<string> {
    match item
    case Format(d) => [d.Text()]
    case Simple(words) => if Trim(words) == "" then [] else [Trim(words)]
    case _ => []
  }

  function DirectiveTexts(items: seq<Item>): seq<string> {
    if items == [] then [] else ItemTexts(items[0]) + DirectiveTexts(items[1..])
  }

  // ----- lexing what was printed

  lemma {:induction false} LexConcat(s: Lexed, a: string, b: string)
    ensures LexAll(s, a + b) == LexAll(LexAll(s, a), b)
    decreases |b|
  {
    if b == "" {
      assert a + b == a;
    } else {
      assert (a + b)[..|a + b| - 1] == a + b[..|b| - 1];
      LexConcat(s, a, b[..|b| - 1]);
    }
  }

  lemma LexOne(s: Lexed, c: char)
    ensures LexAll(s, [c]) == LexStep(s, c)
  {
    assert [c][..0] == "";
  }

  /** Outside quotes, comments and escapes. */
  ghost predicate Idle(s: Lexed) {
    !s.inSingle && !s.inDouble && !s.inComment && !s.escaped
  }

  ghost predicate InQuote(s: Lexed, quote: char) {
    !s.inComment && !s.escaped && s.inSingle == (quote == '\'') && s.inDouble == (quote == '"')
  }

  /** Lexing the text only adds it to the buffer. */
  ghost predicate Appends(s: Lexed, text: string) {
    LexAll(s, text) == s.(buf := s.buf + text)
  }

  lemma AppendsNothing(s: Lexed)
    ensures Appends(s, "")
  {
    assert s.buf + "" == s.buf;
  }

  lemma AppendsConcat(s: Lexed, a: string, b: string)
    requires Appends(s, a) && Appends(s.(buf := s.buf + a), b)
    ensures Appends(s, a + b)
  {
    LexConcat(s, a, b);
    assert (s.buf + a) + b == s.buf + (a + b);
  }

  lemma {:induction false} LexPlain(s: Lexed, t: string)
    requires Idle(s) && PlainText(t)
    ensures Appends(s, t)
    decreases |t|
  {
    if t == "" {
      AppendsNothing(s);
    } else {
      LexPlain(s, t[..|t| - 1]);
      assert s.buf + t == (s.buf + t[..|t| - 1]) + [t[|t| - 1]];
    }
  }

  lemma LexEscapedChar(s: Lexed, quote: char, c: char)
    requires IsQuote(quote) && InQuote(s, quote)
    ensures Appends(s, EscapeChar(c, quote))
  {
    if NeedsEscape(c, quote) {
      assert ['\\', c] == ['\\'] + [c];
      LexConcat(s, ['\\'], [c]);
      LexOne(s, '\\');
      LexOne(LexStep(s, '\\'), c);
      assert (s.buf + ['\\']) + [c] == s.buf + ['\\', c];
    } else {
      LexOne(s, c);
    }
  }

  lemma {:induction false} LexEscaped(s: Lexed, quote: char, text: string)
    requires IsQuote(quote) && InQuote(s, quote)
    ensures Appends(s, Escape(text, quote))
    decreases |text|
  {
    if text == "" {
      AppendsNothing(s);
    } else {
      var head := EscapeChar(text[0], quote);
      LexEscapedChar(s, quote, text[0]);
      LexEscaped(s.(buf := s.buf + head), quote, text[1..]);
      AppendsConcat(s, head, Escape(text[1..], quote));
    }
  }

  lemma LexOpeningQuote(s: Lexed, quote: char)
    requires Idle(s) && IsQuote(quote)
    ensures LexAll(s, [quote]) == s.(inSingle := quote == '\'', inDouble := quote == '"', buf := s.buf + [quote])
  {
    LexOne(s, quote);
  }

  lemma LexClosingQuote(s: Lexed, quote: char)
    requires InQuote(s, quote) && IsQuote(quote)
    ensures LexAll(s, [quote]) == s.(inSingle := false, inDouble := false, buf := s.buf + [quote])
  {
    LexOne(s, quote);
  }

  lemma LexQuoted(s: Lexed, quote: char, text: string)
    requires Idle(s) && IsQuote(quote)
    ensures Appends(s, [quote] + Escape(text, quote) + [quote])
  {
    var q, body := [quote], Escape(text, quote);
    LexOpeningQuote(s, quote);
    var s1 := LexAll(s, q);
    LexEscaped(s1, quote, text);
    var s2 := s1.(buf := s1.buf + body);
    LexClosingQuote(s2, quote);
    LexConcat(s, q, body);
    LexConcat(s, q + body, q);
    assert s2.buf + q == s.buf + (q + body + q);
  }

  lemma BlankIsPlain(ws: string)
    requires IsBlank(ws)
    ensures PlainText(ws)
  {
  }

  lemma LexPiece(s: Lexed, p: Piece)
    requires Idle(s) && p.Valid()
    ensures Appends(s, PrintPiece(p))
  {
    BlankIsPlain(p.gap);
    if p.BarePiece? {
      LexPlain(s, p.gap + p.text);
      return;
    }
    var quoted := [p.quote] + Escape(p.text, p.quote) + [p.quote];
    LexPlain(s, p.gap);
    LexQuoted(s.(buf := s.buf + p.gap), p.quote, p.text);
    AppendsConcat(s, p.gap, quoted);
    assert PrintPiece(p) == p.gap + quoted;
  }

  lemma HeadIsPlain(d: Directive)
    requires d.Valid()
    ensures PlainText(d.Head())
  {
    if d.escape.Some? {
      assert d.Head() == "log_format " + d.name + " " + ("escape=" + d.escape.value) + " ";
    }
  }

  /** Lexing the text adds something else to the buffer: the text without its comments. */
  ghost predicate Leaves(s: Lexed, text: string, added: string) {
    LexAll(s, text) == s.(buf := s.buf + added)
  }

  lemma LeavesConcat(s: Lexed, a: string, x: string, b: string, y: string)
    requires Leaves(s, a, x) && Leaves(s.(buf := s.buf + x), b, y)
    ensures Leaves(s, a + b, x + y)
  {
    LexConcat(s, a, b);
    assert (s.buf + x) + y == s.buf + (x + y);
  }

  lemma LexOneComment(s: Lexed, text: string)
    requires Idle(s) && '\n' !in text
    ensures LexAll(s, "#" + text + "\n") == s
  {
    LexOne(s, '#');
    LexComment(LexStep(s, '#'), text);
    LexConcat(s, "#", text);
    LexConcat(s, "#" + text, "\n");
    LexOne(LexStep(s, '#'), '\n');
  }

  lemma {:induction false} LexComments(s: Lexed, comments: seq<string>)
    requires Idle(s) && forall c :: c in comments ==> '\n' !in c
    ensures LexAll(s, PrintComments(comments)) == s
    decreases |comments|
  {
    if comments != [] {
      LexOneComment(s, comments[0]);
      LexComments(s, comments[1..]);
      LexConcat(s, "#" + comments[0] + "\n", PrintComments(comments[1..]));
    }
  }

  lemma LexSourcePiece(s: Lexed, p: Piece)
    requires Idle(s) && p.Valid()
    ensures Leaves(s, SourcePiece(p), PrintPiece(p))
  {
    LexComments(s, p.comments);
    LexPiece(s, p);
    LexConcat(s, PrintComments(p.comments), PrintPiece(p));
  }

  lemma {:induction false} LexSourcePieces(s: Lexed, ps: seq<Piece>)
    requires Idle(s) && AllValid(ps)
    ensures Leaves(s, SourcePieces(ps), PrintPieces(ps))
    decreases |ps|
  {
    if ps == [] {
      AppendsNothing(s);
    } else {
      LexSourcePiece(s, ps[0]);
      LexSourcePieces(s.(buf := s.buf + PrintPiece(ps[0])), ps[1..]);
      LeavesConcat(s, SourcePiece(ps[0]), PrintPiece(ps[0]), SourcePieces(ps[1..]), PrintPieces(ps[1..]));
    }
  }

  lemma LexDirective(s: Lexed, d: Directive)
    requires Idle(s) && d.Valid()
    ensures Leaves(s, d.Source(), d.Text())
  {
    HeadIsPlain(d);
    LexPlain(s, d.Head());
    LexSourcePieces(s.(buf := s.buf + d.Head()), d.pieces);
    LeavesConcat(s, d.Head(), d.Head(), SourcePieces(d.pieces), PrintPieces(d.pieces));
  }

  lemma {:induction false} PiecesEndInText(ps: seq<Piece>)
    requires ps != [] && AllValid(ps)
    ensures PrintPieces(ps) != "" && !IsWhitespace(PrintPieces(ps)[|PrintPieces(ps)| - 1])
  {
    assert ps[0].Valid();
    if |ps| > 1 {
      PiecesEndInText(ps[1..]);
    } else {
      assert PrintPieces(ps) == PrintPiece(ps[0]) + "";
      PieceEndsInText(ps[0]);
    }
  }

  lemma PieceEndsInText(p: Piece)
    requires p.Valid()
    ensures PrintPiece(p) != "" && !IsWhitespace(PrintPiece(p)[|PrintPiece(p)| - 1])
  {
  }

  lemma TextTrimmed(ws: string, d: Directive)
    requires IsBlank(ws) && d.Valid()
    ensures Trim(ws + d.Text()) == d.Text() != ""
  {
    var t := d.Text();
    PiecesEndInText(d.pieces);
    assert t[0] == 'l' && t[|t| - 1] == PrintPieces(d.pieces)[|PrintPieces(d.pieces)| - 1];
    TrimBefore(ws, t);
  }

  lemma TrimBefore(ws: string, t: string)
    requires IsBlank(ws) && t != "" && !IsWhitespace(t[0]) && !IsWhitespace(t[|t| - 1])
    ensures Trim(ws + t) == t
  {
    TrimStartSkips(ws, t);
  }

  /** The lexer between items: idle, with nothing but whitespace in its buffer. */
  ghost predicate AtRest(s: Lexed) {
    Idle(s) && IsBlank(s.buf)
  }

  lemma {:induction false} LexComment(s: Lexed, text: string)
    requires s.inComment && '\n' !in text
    ensures LexAll(s, text) == s
    decreases |text|
  {
    if text != "" {
      LexComment(s, text[..|text| - 1]);
    }
  }

  /** From one rest to the next, a text yields these directives. */
  ghost predicate Yields(s: Lexed, text: string, texts: seq<string>) {
    var after := LexAll(s, text);
    AtRest(after) && after.directives == s.directives + texts
  }

  lemma YieldsConcat(s: Lexed, a: string, xs: seq<string>, b: string, ys: seq<string>)
    requires Yields(s, a, xs) && Yields(LexAll(s, a), b, ys)
    ensures Yields(s, a + b, xs + ys)
  {
    LexConcat(s, a, b);
    assert (s.directives + xs) + ys == s.directives + (xs + ys);
  }

  lemma LexFormatItem(s: Lexed, d: Directive)
    requires AtRest(s) && d.Valid()
    ensures Yields(s, d.Source() + ";", [d.Text()])
  {
    LexDirective(s, d);
    LexConcat(s, d.Source(), ";");
    LexOne(s.(buf := s.buf + d.Text()), ';');
    TextTrimmed(s.buf, d);
  }

  lemma {:induction false} TrimStartPast(ws: string, s: string)
    requires IsBlank(ws)
    ensures TrimStart(ws + s) == TrimStart(s)
  {
    if ws == "" {
      assert ws + s == s;
    } else {
      assert (ws + s)[1..] == ws[1..] + s;
      TrimStartPast(ws[1..], s);
    }
  }

  lemma LexSimpleItem(s: Lexed, words: string)
    requires AtRest(s) && PlainText(words)
    ensures Yields(s, words + ";", ItemTexts(Simple(words)))
  {
    LexPlain(s, words);
    LexConcat(s, words, ";");
    LexOne(s.(buf := s.buf + words), ';');
    TrimStartPast(s.buf, words);
    assert s.directives + [] == s.directives;
  }

  lemma LexItem(s: Lexed, item: Item)
    requires AtRest(s) && ValidItem(item)
    ensures Yields(s, PrintItem(item), ItemTexts(item))
  {
    match item {
      case Format(d) => LexFormatItem(s, d);
      case Simple(words) => LexSimpleItem(s, words);
      case Comment(text) => LexOneComment(s, text);
      case Space(blank) =>
        BlankIsPlain(blank);
        LexPlain(s, blank);
      case Open(words) =>
        LexPlain(s, words);
        LexConcat(s, words, "{");
        LexOne(s.(buf := s.buf + words), '{');
      case Close(words) =>
        LexPlain(s, words);
        LexConcat(s, words, "}");
        LexOne(s.(buf := s.buf + words), '}');
    }
  }

  lemma {:induction false} LexFile(s: Lexed, items: seq<Item>)
    requires AtRest(s) && forall i :: i in items ==> ValidItem(i)
    ensures Yields(s, PrintFile(items), DirectiveTexts(items))
    decreases |items|
  {
    if items != [] {
      LexItem(s, items[0]);
      LexFile(LexAll(s, PrintItem(items[0])), items[1..]);
      YieldsConcat(s, PrintItem(items[0]), ItemTexts(items[0]), PrintFile(items[1..]), DirectiveTexts(items[1..]));
    }
  }

  /** Printing any sequence of format directives, other directives, comments, blanks and blocks and lexing the
      text gives the text of each directive, in order and without comments, and nothing else. */
  lemma PrintThenExtract(items: seq<Item>)
    requires forall i :: i in items ==> ValidItem(i)
    ensures Extracted(PrintFile(items)) == DirectiveTexts(items)
  {
    LexFile(START, items);
    var s := LexAll(START, PrintFile(items));
    TrimBlank(s.buf);
    assert [] + DirectiveTexts(items) == DirectiveTexts(items);
  }

  // ----- separators within quotes

  /** Text without quotes, separators and escapes. */
  ghost predicate Unremarkable(s: string) {
    PlainText(s) && '\\' !in s
  }

  lemma {:induction false} LexUnremarkable(s: Lexed, quote: char, t: string)
    requires IsQuote(quote) && InQuote(s, quote) && Unremarkable(t)
    ensures Appends(s, t)
    decreases |t|
  {
    if t == "" {
      AppendsNothing(s);
    } else {
      LexUnremarkable(s, quote, t[..|t| - 1]);
      assert s.buf + t == (s.buf + t[..|t| - 1]) + [t[|t| - 1]];
    }
  }

  lemma LexIntoQuote(x: string, quote: char, y: string)
    requires PlainText(x) && IsQuote(quote) && Unremarkable(y)
    ensures LexAll(START, x + [quote] + y)
         == START.(inSingle := quote == '\'', inDouble := quote == '"', buf := x + [quote] + y)
  {
    var before := START.(buf := x);
    var inside := before.(inSingle := quote == '\'', inDouble := quote == '"', buf := x + [quote]);
    LexPlain(START, x);
    assert START.buf + x == x;
    LexOpeningQuote(before, quote);
    LexConcat(START, x, [quote]);
    LexUnremarkable(inside, quote, y);
    LexConcat(START, x + [quote], y);
  }

  lemma LexOutOfQuote(s: Lexed, quote: char, z: string)
    requires InQuote(s, quote) && IsQuote(quote) && Unremarkable(z)
    ensures LexAll(s, z + [quote] + ";") == START.(directives := s.directives + [Trim(s.buf + z + [quote])])
  {
    LexUnremarkable(s, quote, z);
    var inside := s.(buf := s.buf + z);
    LexClosingQuote(inside, quote);
    LexConcat(s, z, [quote]);
    LexConcat(s, z + [quote], ";");
    var buf := s.buf + z + [quote];
    LexOne(inside.(inSingle := false, inDouble := false, buf := buf), ';');
    NotBlank(s.buf + z, quote, "");
    assert buf + "" == buf;
  }

  lemma NotBlank(a: string, c: char, b: string)
    requires !IsWhitespace(c)
    ensures Trim(a + [c] + b) != ""
  {
    var s := a + [c] + b;
    var before, after := TrimMeaning(s);
    assert s[|a|] == c;
  }

  /** Quotes shield nothing: a semicolon within them ends the directive, a brace drops what came before it, and
      a number sign opens a comment. */
  lemma SeparatorsActInQuotes(x: string, quote: char, y: string, z: string, comment: string)
    requires PlainText(x) && IsQuote(quote) && Unremarkable(y) && Unremarkable(z) && '\n' !in comment
    ensures var head, tail := x + [quote] + y, z + [quote] + ";";
            && Extracted(head + ";" + tail) == [Trim(head), Trim(z + [quote])]
            && Extracted(head + "{" + tail) == [Trim(z + [quote])]
            && Extracted(head + "}" + tail) == [Trim(z + [quote])]
            && Extracted(head + ("#" + comment + "\n") + tail) == [Trim(head + z + [quote])]
  {
    var head := x + [quote] + y;
    var s := START.(inSingle := quote == '\'', inDouble := quote == '"', buf := head);
    LexIntoQuote(x, quote, y);
    NotBlank(x, quote, y);
    SemicolonInQuotes(head, s, quote, z);
    BraceInQuotes(head, '{', s, quote, z);
    BraceInQuotes(head, '}', s, quote, z);
    LexHiddenComment(s, comment);
    Resume(head, "#" + comment + "\n", s, quote, z);
  }

  lemma SemicolonInQuotes(head: string, s: Lexed, quote: char, z: string)
    requires IsQuote(quote) && InQuote(s, quote) && Unremarkable(z) && Trim(head) != ""
    requires LexAll(START, head) == s && s.directives == [] && s.buf == head
    ensures Extracted(head + ";" + (z + [quote] + ";")) == [Trim(head), Trim(z + [quote])]
  {
    assert "" + z == z;
    LexOne(s, ';');
    Resume(head, ";", s.(directives := [Trim(head)], buf := ""), quote, z);
  }

  lemma BraceInQuotes(head: string, brace: char, s: Lexed, quote: char, z: string)
    requires IsQuote(quote) && InQuote(s, quote) && Unremarkable(z) && (brace == '{' || brace == '}')
    requires LexAll(START, head) == s && s.directives == []
    ensures Extracted(head + [brace] + (z + [quote] + ";")) == [Trim(z + [quote])]
  {
    assert "" + z == z;
    LexOne(s, brace);
    Resume(head, [brace], s.(buf := ""), quote, z);
  }

  lemma LexHiddenComment(s: Lexed, comment: string)
    requires !s.inComment && !s.escaped && '\n' !in comment
    ensures LexAll(s, "#" + comment + "\n") == s
  {
    LexOne(s, '#');
    LexConcat(s, "#", comment);
    var inside := s.(inComment := true);
    LexComment(inside, comment);
    LexConcat(s, "#" + comment, "\n");
    LexOne(inside, '\n');
  }

  lemma Resume(head: string, cut: string, s: Lexed, quote: char, z: string)
    requires IsQuote(quote) && InQuote(s, quote) && Unremarkable(z)
    requires LexAll(LexAll(START, head), cut) == s
    ensures Extracted(head + cut + (z + [quote] + ";")) == s.directives + [Trim(s.buf + z + [quote])]
  {
    LexConcat(START, head, cut);
    LexConcat(START, head + cut, z + [quote] + ";");
    LexOutOfQuote(s, quote, z);
  }

  // ----- parsing what was extracted

  lemma QuotedArgOfChar(c: char, quote: char, tail: string)
    requires IsQuote(quote)
    ensures var (arg, rest) := QuotedArg(tail, quote, false);
            QuotedArg(EscapeChar(c, quote) + tail, quote, false) == ([c] + arg, rest)
  {
    var s := EscapeChar(c, quote) + tail;
    if NeedsEscape(c, quote) {
      assert s[0] == '\\' && s[1..][0] == c && s[1..][1..] == tail;
    } else {
      assert s[0] == c && s[1..] == tail;
    }
  }

  lemma {:induction false} QuotedArgOfEscape(text: string, quote: char, rest: string)
    requires IsQuote(quote)
    ensures QuotedArg(Escape(text, quote) + [quote] + rest, quote, false) == (text, rest)
    decreases |text|
  {
    if text == "" {
      assert (Escape(text, quote) + [quote] + rest)[1..] == rest;
    } else {
      var tail := Escape(text[1..], quote) + [quote] + rest;
      assert Escape(text, quote) + [quote] + rest == EscapeChar(text[0], quote) + tail;
      assert [text[0]] + text[1..] == text;
      QuotedArgOfEscape(text[1..], quote, rest);
      QuotedArgOfChar(text[0], quote, tail);
    }
  }

  lemma {:induction false} BodySkipsBlank(ws: string, rest: string)
    requires IsBlank(ws)
    ensures FormatBody(ws + rest) == FormatBody(rest)
  {
    if ws == "" {
      assert ws + rest == rest;
    } else {
      assert (ws + rest)[1..] == ws[1..] + rest;
      BodySkipsBlank(ws[1..], rest);
    }
  }

  lemma BodyOfQuoted(p: Piece, rest: string)
    requires p.Piece? && p.Valid()
    ensures FormatBody(PrintPiece(p) + rest) == Prefixed(p.text, FormatBody(rest))
  {
    var quoted := [p.quote] + (Escape(p.text, p.quote) + [p.quote] + rest);
    assert PrintPiece(p) + rest == p.gap + quoted;
    BodySkipsBlank(p.gap, quoted);
    assert quoted[1..] == Escape(p.text, p.quote) + [p.quote] + rest;
    QuotedArgOfEscape(p.text, p.quote, rest);
  }

  lemma {:induction false} BareLength(word: string, rest: string)
    requires forall i :: 0 <= i < |word| ==> !IsWhitespace(word[i]) && word[i] != ';'
    requires rest == "" || IsWhitespace(rest[0])
    ensures UnquotedLength(word + rest) == |word|
  {
    if word == "" {
      assert word + rest == rest;
    } else {
      assert (word + rest)[1..] == word[1..] + rest;
      BareLength(word[1..], rest);
    }
  }

  lemma BodyOfBare(p: Piece, rest: string)
    requires p.BarePiece? && p.Valid() && (rest == "" || IsWhitespace(rest[0]))
    ensures FormatBody(PrintPiece(p) + rest) == Prefixed(p.text, FormatBody(rest))
  {
    var bare := p.text + rest;
    assert PrintPiece(p) + rest == p.gap + bare;
    BodySkipsBlank(p.gap, bare);
    assert IsPlain(p.text[0]) && !IsWhitespace(p.text[0]) && bare[0] == p.text[0];
    BareLength(p.text, rest);
    assert bare[..|p.text|] == p.text && bare[|p.text|..] == rest;
  }

  lemma GapInFront(ps: seq<Piece>)
    requires ps != [] && ps[0].gap != "" && ps[0].Valid()
    ensures PrintPieces(ps) != "" && IsWhitespace(PrintPieces(ps)[0])
  {
    assert PrintPiece(ps[0])[0] == ps[0].gap[0];
  }

  lemma {:induction false} BodyOfPieces(ps: seq<Piece>)
    requires AllValid(ps) && Arranged(ps)
    ensures FormatBody(PrintPieces(ps)) == Some(TextOf(ps))
  {
    if ps != [] {
      var tail := ps[1..];
      assert Arranged(tail) by {
        forall i | 0 < i < |tail| && tail[i - 1].BarePiece? ensures tail[i].gap != "" {
          assert ps[i + 1 - 1].BarePiece?;
        }
      }
      assert ps[0].Valid();
      BodyOfPieces(tail);
      if ps[0].Piece? {
        BodyOfQuoted(ps[0], PrintPieces(tail));
      } else {
        if tail != [] {
          assert ps[1].Valid() && ps[1 - 1].BarePiece? && tail[0] == ps[1];
          GapInFront(tail);
        }
        BodyOfBare(ps[0], PrintPieces(tail));
      }
    }
  }

  lemma {:induction false} BodyIgnoresTrim(s: string)
    ensures FormatBody(TrimStart(s)) == FormatBody(s)
  {
    if s != "" && IsWhitespace(s[0]) {
      BodyIgnoresTrim(s[1..]);
    }
  }

  /** A printed piece without its gap. */
  function Argument(p: Piece): string {
    if p.Piece? then [p.quote] + Escape(p.text, p.quote) + [p.quote] else p.text
  }

  lemma ArgumentOf(p: Piece)
    requires p.Valid()
    ensures PrintPiece(p) == p.gap + Argument(p)
    ensures Argument(p) != "" && !IsWhitespace(Argument(p)[0])
    ensures p.Piece? ==> IsQuote(Argument(p)[0])
  {
    if p.Piece? {
      var escaped := Escape(p.text, p.quote);
      GapFirst(p.gap, [p.quote], escaped, [p.quote]);
      assert ([p.quote] + escaped + [p.quote])[0] == p.quote;
    } else {
      assert !IsWhitespace(p.text[0]);
    }
  }

  lemma GapFirst(gap: string, a: string, b: string, c: string)
    ensures gap + a + b + c == gap + (a + b + c)
  {
  }

  lemma {:induction false} TrimStartOfPieces(ps: seq<Piece>)
    requires ps != [] && AllValid(ps)
    ensures TrimStart(PrintPieces(ps)) == Argument(ps[0]) + PrintPieces(ps[1..])
  {
    var p := ps[0];
    assert p.Valid();
    ArgumentOf(p);
    var more := Argument(p) + PrintPieces(ps[1..]);
    assert PrintPieces(ps) == p.gap + more;
    TrimStartSkips(p.gap, more);
  }

  /** Only a bare first piece could be taken for the escape option. */
  lemma NoEscapeOption(ps: seq<Piece>)
    requires ps != [] && AllValid(ps) && Arranged(ps)
    requires ps[0].BarePiece? ==> !("escape=" <= ps[0].text)
    ensures !("escape=" <= Argument(ps[0]) + PrintPieces(ps[1..]))
  {
    var p, rest := ps[0], PrintPieces(ps[1..]);
    var s := Argument(p) + rest;
    assert p.Valid();
    ArgumentOf(p);
    if p.Piece? {
      assert s[0] == Argument(p)[0] && "escape="[0] == 'e';
    } else {
      if |ps| > 1 {
        assert ps[1].Valid() && ps[1 - 1].BarePiece? && ps[1..][0] == ps[1];
        GapInFront(ps[1..]);
      }
      WordNotPrefix("escape=", p.text, rest);
    }
  }

  /** A word without whitespace that does not start a text cannot start it with whitespace after it. */
  lemma WordNotPrefix(word: string, text: string, rest: string)
    requires !(word <= text) && (rest == "" || IsWhitespace(rest[0]))
    requires forall i :: 0 <= i < |word| ==> !IsWhitespace(word[i])
    ensures !(word <= text + rest)
  {
    if |word| <= |text| {
      assert (text + rest)[..|word|] == text[..|word|];
    } else if rest != "" {
      assert (text + rest)[|text|] == rest[0] && !IsWhitespace(word[|text|]);
    }
  }

  lemma BodyPartOf(d: Directive)
    requires d.Valid()
    ensures FormatBody(BodyPart(d.OptionText() + PrintPieces(d.pieces))) == Some(TextOf(d.pieces))
  {
    var printed := PrintPieces(d.pieces);
    BodyOfPieces(d.pieces);
    if d.escape.Some? {
      var word := "escape=" + d.escape.value;
      var after := word + " " + printed;
      assert after == word + (" " + printed) && after[0] == 'e' && "escape=" <= after;
      WordBeforeSpace(word, " " + printed);
      assert after[|word|..] == " " + printed;
      BodyIgnoresTrim(" " + printed);
      BodySkipsBlank(" ", printed);
    } else {
      assert "" + printed == printed;
      TrimStartOfPieces(d.pieces);
      NoEscapeOption(d.pieces);
      BodyIgnoresTrim(printed);
    }
  }

  lemma {:induction false} SemicolonsAround(before: string, name: string, after: string)
    requires AllSemicolons(before) && AllSemicolons(after)
    requires name != "" && name[0] != ';' && name[|name| - 1] != ';'
    ensures TrimSemicolons(before + name + after) == name
    decreases |before| + |after|
  {
    var s := before + name + after;
    if before != "" {
      assert s[0] == ';' && s[1..] == before[1..] + name + after;
      SemicolonsAround(before[1..], name, after);
    } else if after != "" {
      assert s == name + after && s[0] == name[0] && s[..|s| - 1] == before + name + after[..|after| - 1];
      SemicolonsAround(before, name, after[..|after| - 1]);
    } else {
      assert s == name;
    }
  }

  /** Semicolons around the name are not part of it. */
  lemma NameBetweenSemicolons(before: string, name: string, after: string, rest: string)
    requires AllSemicolons(before) && AllSemicolons(after)
    requires name != "" && forall i :: 0 <= i < |name| ==> !IsWhitespace(name[i]) && name[i] != ';'
    ensures var directive := "log_format" + (" " + (before + name + after + (" " + rest)));
            NamesFormat(directive) && FormatName(directive) == name && FormatText(directive) == BodyPart(rest)
  {
    var word := before + name + after;
    SemicolonsAround(before, name, after);
    WordAndText(word, rest);
  }

  lemma {:induction false} KeywordSkipped(rest: string)
    requires rest != "" && !IsWhitespace(rest[0])
    ensures var directive := "log_format" + (" " + rest);
            "log_format" <= directive && AfterKeyword(directive) == rest
  {
    var directive := "log_format" + (" " + rest);
    assert directive[10..] == " " + rest && "log_format" <= directive;
    TrimStartSkips(" ", rest);
  }

  lemma {:induction false} WordTrimmed(word: string)
    requires word != "" && (forall i :: 0 <= i < |word| ==> !IsWhitespace(word[i]))
    ensures Trim(word) == word
  {
    TrimBefore("", word);
    assert "" + word == word;
  }

  lemma {:induction false} FirstWordOf(word: string, after: string)
    requires word != "" && (forall i :: 0 <= i < |word| ==> !IsWhitespace(word[i]))
    ensures var rest := word + (" " + after);
            rest[0] == word[0] && WordLength(rest) == |word| && rest[..|word|] == word && rest[|word| + 1..] == after
  {
    WordBeforeSpace(word, " " + after);
  }

  /** A word after `log_format` is the name, semicolons aside, and the text after the next space the body. */
  lemma {:induction false} WordAndText(word: string, after: string)
    requires word != "" && (forall i :: 0 <= i < |word| ==> !IsWhitespace(word[i]))
    ensures var directive := "log_format" + (" " + (word + (" " + after)));
            && "log_format" <= directive && FormatName(directive) == TrimSemicolons(word)
            && FormatText(directive) == BodyPart(after)
  {
    FirstWordOf(word, after);
    KeywordSkipped(word + (" " + after));
    WordTrimmed(word);
  }

  /** A word after `log_format` is the name, and the text after the next space the body. */
  lemma NameAndText(name: string, after: string)
    requires name != "" && (forall i :: 0 <= i < |name| ==> !IsWhitespace(name[i]) && name[i] != ';')
    ensures var directive := "log_format" + (" " + (name + (" " + after)));
            NamesFormat(directive) && FormatName(directive) == name && FormatText(directive) == BodyPart(after)
  {
    WordAndText(name, after);
    assert TrimSemicolons(name) == name;
  }

  lemma Regroup(name: string, option: string, pieces: string)
    ensures "log_format " + name + " " + option + pieces == "log_format" + (" " + (name + (" " + (option + pieces))))
  {
    assert "log_format " == "log_format" + " ";
  }

  /** Parsing a printed directive gives back its name and the concatenation of its pieces. */
  lemma PrintThenParse(d: Directive)
    requires d.Valid()
    ensures ParseLogFormat(d.Text()) == Named(d.name, TextOf(d.pieces))
  {
    NameAndText(d.name, d.OptionText() + PrintPieces(d.pieces));
    BodyPartOf(d);
    Regroup(d.name, d.OptionText(), PrintPieces(d.pieces));
  }

  function ItemParses(item: Item): seq<Parsed> {
    match item
    case Format(d) => [Named(d.name, TextOf(d.pieces))]
    case Simple(words) => if Trim(words) == "" then [] else [NotLogFormat]
    case _ => []
  }

  /** The names and bodies a file was printed from. */
  function FileParses(items: seq<Item>): seq<Parsed> {
    if items == [] then [] else ItemParses(items[0]) + FileParses(items[1..])
  }

  function ParseAll(directives: seq<string>): seq<Parsed> {
    if directives == [] then [] else [ParseLogFormat(directives[0])] + ParseAll(directives[1..])
  }

  lemma ItemTextsParse(item: Item)
    requires ValidItem(item)
    ensures ParseAll(ItemTexts(item)) == ItemParses(item)
  {
    match item {
      case Format(d) =>
        PrintThenParse(d);
        assert [d.Text()][1..] == [];
      case Simple(words) =>
        assert [Trim(words)][1..] == [];
      case _ =>
    }
  }

  lemma {:induction false} ParseAllConcat(a: seq<string>, b: seq<string>)
    ensures ParseAll(a + b) == ParseAll(a) + ParseAll(b)
  {
    if a == [] {
      assert a + b == b;
    } else {
      assert (a + b)[1..] == a[1..] + b;
      ParseAllConcat(a[1..], b);
    }
  }

  lemma {:induction false} ParseAllTexts(items: seq<Item>)
    requires forall k :: k in items ==> ValidItem(k)
    ensures ParseAll(DirectiveTexts(items)) == FileParses(items)
  {
    if items != [] {
      ParseAllTexts(items[1..]);
      ItemTextsParse(items[0]);
      ParseAllConcat(ItemTexts(items[0]), DirectiveTexts(items[1..]));
    }
  }

  /** The whole trip: a file of directives among comments, blanks and blocks yields exactly the names and bodies
      its format directives were printed from, in order, and recognises the other directives as such. */
  lemma PrintExtractParse(items: seq<Item>)
    requires forall k :: k in items ==> ValidItem(k)
    ensures ParseAll(Extracted(PrintFile(items))) == FileParses(items)
  {
    PrintThenExtract(items);
    ParseAllTexts(items);
  }

  // ----- a file the parser never finishes

  lemma LexQuotedName(s: Lexed, p: Piece)
    requires Idle(s) && p.Valid()
    ensures Appends(s, "log_format " + PrintPiece(p))
  {
    LexPlain(s, "log_format ");
    LexPiece(s.(buf := s.buf + "log_format "), p);
    AppendsConcat(s, "log_format ", PrintPiece(p));
  }

  lemma LexTerminator(s: Lexed)
    requires Idle(s)
    ensures LexAll(s, ";") == s.(directives := Flushed(s.directives, s.buf), buf := "")
  {
    LexOne(s, ';');
  }

  lemma LexStatement(s: Lexed, t: string)
    requires Idle(s) && s.buf == "" && Appends(s, t) && Trim(t) == t != ""
    ensures LexAll(s, t + ";") == s.(directives := s.directives + [t])
  {
    LexConcat(s, t, ";");
    assert "" + t == t;
    LexTerminator(s.(buf := t));
  }

  lemma ExtractQuotedName(p: Piece)
    requires p.Piece? && p.Valid()
    ensures Extracted("log_format " + PrintPiece(p) + ";") == ["log_format " + PrintPiece(p)]
  {
    var t := "log_format " + PrintPiece(p);
    LexQuotedName(START, p);
    assert t[0] == 'l' && t[|t| - 1] == p.quote;
    TrimBefore("", t);
    assert "" + t == t;
    LexStatement(START, t);
    assert Trim("") == "";
  }

  /** The parser fails to return exactly on the directives that name a format and have a bare semicolon in the
      text after the name; the argument loop then runs forever. */
  lemma BareSemicolonNeverReturns(directive: string)
    ensures ParseLogFormat(directive) == NeverReturns
       <==> NamesFormat(directive) && LoopsForever(FormatText(directive))
    ensures ParseLogFormat(directive) == NeverReturns
       <==> NamesFormat(directive) && BareSemicolon(FormatText(directive), Between)
  {
    ReturnsIffNoBareSemicolon(FormatText(directive));
  }

  lemma QuotedNamePrinted()
    ensures PrintPiece(Piece("", '\'', "a ;b")) == "'a" + (" " + "\\;b'")
  {
    var t := "a ;b";
    assert t[1..] == " ;b" && t[1..][1..] == ";b" && t[1..][1..][1..] == "b" && t[1..][1..][1..][1..] == "";
  }

  lemma SemicolonTextLoops(text: string)
    requires |text| > 1 && text[0] == '\\' && text[1] == ';'
    ensures BodyPart(text) == text && LoopsForever(text)
  {
    assert text[1..][0] == ';' && BareSemicolon(text, Between);
    assert !("escape=" <= text) by {
      assert "escape="[0] == 'e';
    }
    ReturnsIffNoBareSemicolon(text);
  }

  lemma QuotedNameLoops(p: Piece, name: string, text: string)
    requires p.Piece? && p.Valid() && PrintPiece(p) == name + (" " + text)
    requires name != "" && (forall i :: 0 <= i < |name| ==> !IsWhitespace(name[i]) && name[i] != ';')
    requires |text| > 1 && text[0] == '\\' && text[1] == ';'
    ensures var directive := "log_format " + PrintPiece(p);
            && Extracted(directive + ";") == [directive]
            && NamesFormat(directive) && LoopsForever(FormatText(directive))
  {
    ExtractQuotedName(p);
    SemicolonTextLoops(text);
    NameAndText(name, text);
    assert "log_format " + PrintPiece(p) == "log_format" + (" " + PrintPiece(p));
  }

  /** The lexer lets an escaped semicolon through, but the directive parser splits the name off at the first
      space before it looks at quotes: on the file `log_format 'a \;b';` the semicolon then stands bare. */
  lemma QuotedNameNeverReturns()
    ensures var directive := "log_format " + ("'a" + (" " + "\\;b'"));
            && Extracted(directive + ";") == [directive]
            && NamesFormat(directive) && LoopsForever(FormatText(directive))
  {
    QuotedNamePrinted();
    QuotedNameLoops(Piece("", '\'', "a ;b"), "'a", "\\;b'");
  }
}
