/** Compiling the body of a log format to segments, and printing it again (src/parser/nginx.rs). */
module LogCompile {
  import opened LogFormat
  import opened Wrappers

  // ----- compiling a format body

  predicate IsNameChar(c: char) {
    'a' <= c <= 'z' || 'A' <= c <= 'Z' || '0' <= c <= '9' || c == '_'
  }

  function MapVariableName(name: string): LogVariable {
    if name == "remote_addr" then RemoteAddr
    else if name == "http_cf_connecting_ip" then CfConnectingIp
    else if name == "http_x_forwarded_for" then XForwardedFor
    else if name == "time_local" then TimeLocal
    else if name == "request" then Request
    else if name == "request_method" then RequestMethod
    else if name == "request_uri" || name == "uri" then RequestUri
    else if name == "status" then Status
    else if name == "body_bytes_sent" || name == "bytes_sent" then BodyBytesSent
    else if name == "http_referer" then HttpReferer
    else if name == "http_user_agent" then HttpUserAgent
    else if name == "host" || name == "http_host" then Host
    else Ignored(name)
  }

  /** The names nginx gives the variables, the first of each being the usual one. */
  function NamesOf(v: LogVariable): seq<string> {
    match v
    case RemoteAddr => ["remote_addr"]
    case CfConnectingIp => ["http_cf_connecting_ip"]
    case XForwardedFor => ["http_x_forwarded_for"]
    case TimeLocal => ["time_local"]
    case Request => ["request"]
    case RequestMethod => ["request_method"]
    case RequestUri => ["request_uri", "uri"]
    case Status => ["status"]
    case BodyBytesSent => ["body_bytes_sent", "bytes_sent"]
    case HttpReferer => ["http_referer"]
    case HttpUserAgent => ["http_user_agent"]
    case Host => ["host", "http_host"]
    case Ignored(name) => [name]
  }

  /** A name is looked up as the variable it names; a name that names none is kept as ignored. */
  lemma NameLookup(name: string)
    ensures name in NamesOf(MapVariableName(name))
  {
  }

  lemma VariableLookup(v: LogVariable, name: string)
    requires !v.Ignored? && name in NamesOf(v)
    ensures MapVariableName(name) == v
  {
    match v {
      case RemoteAddr => assert name == "remote_addr";
      case CfConnectingIp => assert name == "http_cf_connecting_ip";
      case XForwardedFor => assert name == "http_x_forwarded_for";
      case TimeLocal => assert name == "time_local";
      case Request => assert name == "request";
      case RequestMethod => assert name == "request_method";
      case RequestUri => assert name == "request_uri" || name == "uri";
      case Status => assert name == "status";
      case BodyBytesSent => assert name == "body_bytes_sent" || name == "bytes_sent";
      case HttpReferer => assert name == "http_referer";
      case HttpUserAgent => assert name == "http_user_agent";
      case Host => assert name == "host" || name == "http_host";
    }
  }

  /** A segment before its variable name is looked up. */
  datatype Piece = Text(text: string) | Name(name: string)

  function Compiled(pieces: seq<Piece>): seq<Segment> {
    seq(|pieces|, i requires 0 <= i < |pieces| => CompiledPiece(pieces[i]))
  }

  function CompiledPiece(p: Piece): Segment {
    match p
    case Text(t) => Literal(t)
    case Name(n) => Variable(MapVariableName(n))
  }

  /** The name after a dollar sign, and how many characters it takes up. */
  function NameAt(s: string): (r: (string, nat))
    ensures r.1 <= |s|
  {
    if s != "" && s[0] == '{' then
      var n := UpToBrace(s[1..]);
      (s[1..][..n], if n < |s| - 1 then n + 2 else n + 1)
    else
      var n := NameLength(s);
      (s[..n], n)
  }

  function UpToBrace(s: string): (n: nat)
    ensures n <= |s|
  {
    if s == "" || s[0] == '}' then 0 else 1 + UpToBrace(s[1..])
  }

  function NameLength(s: string): (n: nat)
    ensures n <= |s|
  {
    if s == "" || !IsNameChar(s[0]) then 0 else 1 + NameLength(s[1..])
  }

  function Flush(lit: string): seq<Piece> {
    if lit == "" then [] else [Text(lit)]
  }

  /** One step at the head of a format body, with `lit` the literal text collected so far: the pieces that
      are complete, the characters consumed, and the literal text now open. */
  function PieceStep(body: string, lit: string): (r: (seq<Piece>, nat, string))
    requires body != ""
    ensures 0 < r.1 <= |body|
  {
    if body[0] != '$' then ([], 1, lit + [body[0]])
    else if |body| > 1 && body[1] == '$' then ([], 2, lit + "$")
    else
      var (name, n) := NameAt(body[1..]);
      if name == "" then (Flush(lit), 1 + n, "$") else (Flush(lit) + [Name(name)], 1 + n, "")
  }

  /** The pieces of a format body. */
  function Pieces(body: string, lit: string): seq<Piece>
    decreases |body|
  {
    if body == "" then Flush(lit)
    else
      var (out, n, open) := PieceStep(body, lit);
      out + Pieces(body[n..], open)
  }

  method NameInBraces(body: string, at: nat) returns (name: string, next: nat)
    requires at < |body| && body[at] == '{'
    ensures (name, next - at) == NameAt(body[at..]) && at <= next <= |body|
  {
    name, next := "", at + 1;
    ghost var t := body[at + 1..];
    assert body[at..][1..] == t;
    while next < |body|
      invariant at + 1 <= next <= |body| && |name| == next - (at + 1) && name == t[..|name|]
      invariant UpToBrace(t) == |name| + UpToBrace(body[next..])
    {
      var c := body[next];
      assert body[next..][1..] == body[next + 1..];
      next := next + 1;
      if c == '}' {
        return;
      }
      name := name + [c];
    }
    assert body[next..] == "";
  }

  method BareName(body: string, at: nat) returns (name: string, next: nat)
    requires at <= |body| && (at < |body| ==> body[at] != '{')
    ensures (name, next - at) == NameAt(body[at..]) && at <= next <= |body|
  {
    name, next := "", at;
    ghost var t := body[at..];
    while next < |body| && IsNameChar(body[next])
      invariant at <= next <= |body| && |name| == next - at && name == t[..|name|]
      invariant NameLength(t) == |name| + NameLength(body[next..])
    {
      assert body[next..][1..] == body[next + 1..];
      name := name + [body[next]];
      next := next + 1;
    }
    assert next < |body| ==> body[next..][0] == body[next];
    assert next == |body| ==> body[next..] == "";
  }

  method ExtractVarName(body: string, at: nat) returns (name: string, next: nat)
    requires at <= |body|
    ensures (name, next - at) == NameAt(body[at..]) && at <= next <= |body|
  {
    if at < |body| && body[at] == '{' {
      name, next := NameInBraces(body, at);
    } else {
      name, next := BareName(body, at);
    }
  }

  lemma CompiledConcat(a: seq<Piece>, b: seq<Piece>)
    ensures Compiled(a + b) == Compiled(a) + Compiled(b)
  {
  }

  /** The segments so far and those of the rest of the body make up the whole. */
  ghost predicate OnCourse(body: string, segments: seq<Segment>, i: nat, lit: string) {
    i <= |body| && segments + Compiled(Pieces(body[i..], lit)) == Compiled(Pieces(body, ""))
  }

  lemma CourseStep(body: string, segments: seq<Segment>, i: nat, lit: string)
    requires i < |body| && OnCourse(body, segments, i, lit)
    ensures var (out, n, open) := PieceStep(body[i..], lit);
            OnCourse(body, segments + Compiled(out), i + n, open)
  {
    var (out, n, open) := PieceStep(body[i..], lit);
    var rest := Pieces(body[i + n..], open);
    assert body[i..][n..] == body[i + n..];
    assert Pieces(body[i..], lit) == out + rest;
    CompiledConcat(out, rest);
    assert segments + (Compiled(out) + Compiled(rest)) == (segments + Compiled(out)) + Compiled(rest);
  }

  lemma CourseEnd(body: string, segments: seq<Segment>, lit: string)
    requires OnCourse(body, segments, |body|, lit)
    ensures segments + Compiled(Flush(lit)) == Compiled(Pieces(body, ""))
  {
    assert body[|body|..] == "";
  }

  lemma CourseStart(body: string)
    ensures OnCourse(body, [], 0, "")
  {
    assert body[0..] == body;
    assert [] + Compiled(Pieces(body, "")) == Compiled(Pieces(body, ""));
  }

  /** These segments, position and open literal are what one step yields. */
  ghost predicate Takes(body: string, i: nat, lit: string, out: seq<Segment>, next: nat, open: string)
    requires i < |body|
  {
    var (pieces, n, o) := PieceStep(body[i..], lit);
    out == Compiled(pieces) && next == i + n && open == o
  }

  lemma CourseTakes(body: string, segments: seq<Segment>, i: nat, lit: string, out: seq<Segment>, next: nat,
                    open: string)
    requires i < |body| && OnCourse(body, segments, i, lit) && Takes(body, i, lit, out, next, open)
    ensures OnCourse(body, segments + out, next, open)
  {
    CourseStep(body, segments, i, lit);
  }

  /** The work at one position. */
  method TakePiece(body: string, i: nat, lit: string) returns (out: seq<Segment>, next: nat, open: string)
    requires i < |body|
    ensures Takes(body, i, lit, out, next, open) && i < next <= |body|
  {
    if body[i] != '$' {
      return [], i + 1, lit + [body[i]];
    }
    if i + 1 < |body| && body[i + 1] == '$' {
      return [], i + 2, lit + "$";
    }
    out := if lit != "" then [Literal(lit)] else [];
    var name;
    name, next := ExtractVarName(body, i + 1);
    assert body[i..][1..] == body[i + 1..];
    if name == "" {
      open := "$";
    } else {
      out := out + [Variable(MapVariableName(name))];
      open := "";
    }
  }

  method ParseFormatSegments(body: string) returns (segments: seq<Segment>)
    ensures segments == Compiled(Pieces(body, ""))
  {
    segments := [];
    var currentLit := "";
    var i: nat := 0;
    CourseStart(body);
    while i < |body|
      invariant i <= |body| && OnCourse(body, segments, i, currentLit)
    {
      var out, next, open := TakePiece(body, i, currentLit);
      CourseTakes(body, segments, i, currentLit, out, next, open);
      segments, i, currentLit := segments + out, next, open;
    }
    CourseEnd(body, segments, currentLit);
    if currentLit != "" {
      segments := segments + [Literal(currentLit)];
    }
  }

  // ----- printing a format and compiling it again

  function EscapeDollars(t: string): string {
    if t == "" then "" else (if t[0] == '$' then "$$" else [t[0]]) + EscapeDollars(t[1..])
  }

  /** A piece as it may be spelled: a name in braces or bare. */
  datatype Spelling = Words(text: string) | Braced(name: string) | Bare(name: string) {
    function Print(): string {
      match this
      case Words(t) => EscapeDollars(t)
      case Braced(n) => "${" + n + "}"
      case Bare(n) => "$" + n
    }

    function Meaning(): Piece {
      match this
      case Words(t) => Text(t)
      case Braced(n) => Name(n)
      case Bare(n) => Name(n)
    }

    ghost predicate Valid() {
      match this
      case Words(t) => t != ""
      case Braced(n) => n != "" && '}' !in n
      case Bare(n) => n != "" && AllNameChars(n)
    }
  }

  ghost predicate AllNameChars(n: string) {
    forall i :: 0 <= i < |n| ==> IsNameChar(n[i])
  }

  function PrintPieces(ss: seq<Spelling>): string {
    if ss == [] then "" else ss[0].Print() + PrintPieces(ss[1..])
  }

  function Meanings(ss: seq<Spelling>): seq<Piece> {
    if ss == [] then [] else [ss[0].Meaning()] + Meanings(ss[1..])
  }

  /** What may follow: no text after a text, and after a bare name no text that would lengthen it. */
  ghost predicate MayFollow(s: Spelling, next: Spelling) {
    next.Words? ==> !s.Words? && (s.Bare? && next.text != "" ==> !IsNameChar(next.text[0]))
  }

  ghost predicate Printable(ss: seq<Spelling>) {
    && (forall i :: 0 <= i < |ss| ==> ss[i].Valid())
    && (forall i :: 0 < i < |ss| ==> MayFollow(ss[i - 1], ss[i]))
  }

  lemma CharPiece(c: char, rest: string, lit: string)
    ensures Pieces((if c == '$' then "$$" else [c]) + rest, lit) == Pieces(rest, lit + [c])
  {
    var head := if c == '$' then "$$" else [c];
    var body := head + rest;
    assert body[|head|..] == rest && body[0] == c && (c == '$' ==> body[1] == '$');
    assert PieceStep(body, lit) == ([], |head|, lit + [c]);
  }

  lemma {:induction false} TextPieces(t: string, rest: string, lit: string)
    ensures Pieces(EscapeDollars(t) + rest, lit) == Pieces(rest, lit + t)
    decreases |t|
  {
    if t == "" {
      assert EscapeDollars(t) + rest == rest && lit + t == lit;
    } else {
      var head := if t[0] == '$' then "$$" else [t[0]];
      assert EscapeDollars(t) + rest == head + (EscapeDollars(t[1..]) + rest);
      CharPiece(t[0], EscapeDollars(t[1..]) + rest, lit);
      TextPieces(t[1..], rest, lit + [t[0]]);
      assert (lit + [t[0]]) + t[1..] == lit + t;
    }
  }

  lemma {:induction false} UpToBraceOf(n: string, rest: string)
    requires '}' !in n
    ensures UpToBrace(n + "}" + rest) == |n|
  {
    if n != "" {
      assert (n + "}" + rest)[1..] == n[1..] + "}" + rest;
      UpToBraceOf(n[1..], rest);
    }
  }

  lemma NameStep(s: string, lit: string, name: string, n: nat)
    requires s != "" && s[0] != '$' && NameAt(s) == (name, n) && name != ""
    ensures PieceStep("$" + s, lit) == (Flush(lit) + [Name(name)], 1 + n, "") && ("$" + s)[1 + n..] == s[n..]
  {
    assert ("$" + s)[1..] == s;
  }

  lemma InFront(lit: string, piece: Piece, rest: seq<Piece>)
    ensures (Flush(lit) + [piece]) + rest == Flush(lit) + ([piece] + rest)
  {
  }

  lemma NamePiece(s: string, lit: string, name: string, n: nat)
    requires s != "" && s[0] != '$' && NameAt(s) == (name, n) && name != ""
    ensures Pieces("$" + s, lit) == Flush(lit) + ([Name(name)] + Pieces(s[n..], ""))
  {
    NameStep(s, lit, name, n);
    InFront(lit, Name(name), Pieces(s[n..], ""));
  }

  lemma BracedNameAt(n: string, rest: string)
    requires '}' !in n
    ensures var s := "{" + n + "}" + rest; NameAt(s) == (n, |n| + 2) && s[|n| + 2..] == rest
  {
    var s := "{" + n + "}" + rest;
    assert s[1..] == n + "}" + rest;
    UpToBraceOf(n, rest);
    assert s[1..][..|n|] == n;
  }

  lemma BracedText(n: string, rest: string)
    ensures "${" + n + "}" + rest == "$" + ("{" + n + "}" + rest)
  {
    assert "${" == "$" + "{";
  }

  lemma NamePieces(n: string, rest: string, lit: string)
    requires n != "" && '}' !in n
    ensures Pieces("${" + n + "}" + rest, lit) == Flush(lit) + ([Name(n)] + Pieces(rest, ""))
  {
    var s := "{" + n + "}" + rest;
    BracedNameAt(n, rest);
    BracedText(n, rest);
    NamePiece(s, lit, n, |n| + 2);
  }

  lemma {:induction false} NameLengthOf(n: string, rest: string)
    requires AllNameChars(n) && (rest == "" || !IsNameChar(rest[0]))
    ensures NameLength(n + rest) == |n|
  {
    if n == "" {
      assert n + rest == rest;
    } else {
      assert (n + rest)[1..] == n[1..] + rest;
      NameLengthOf(n[1..], rest);
    }
  }

  lemma BareNameAt(n: string, rest: string)
    requires n != "" && AllNameChars(n) && (rest == "" || !IsNameChar(rest[0]))
    ensures var s := n + rest; s[0] != '{' && s[0] != '$' && NameAt(s) == (n, |n|) && s[|n|..] == rest
  {
    var s := n + rest;
    assert s[0] == n[0] && IsNameChar(n[0]);
    NameLengthOf(n, rest);
    assert s[..|n|] == n;
  }

  lemma BareText(n: string, rest: string)
    ensures "$" + n + rest == "$" + (n + rest)
  {
  }

  lemma BarePieces(n: string, rest: string, lit: string)
    requires n != "" && AllNameChars(n) && (rest == "" || !IsNameChar(rest[0]))
    ensures Pieces("$" + n + rest, lit) == Flush(lit) + ([Name(n)] + Pieces(rest, ""))
  {
    BareNameAt(n, rest);
    BareText(n, rest);
    NamePiece(n + rest, lit, n, |n|);
  }

  lemma PrintableTail(ss: seq<Spelling>)
    requires Printable(ss) && ss != []
    ensures ss[0].Valid() && Printable(ss[1..]) && (|ss| > 1 ==> ss[1].Valid() && MayFollow(ss[0], ss[1]))
  {
    var tail := ss[1..];
    forall i | 0 < i < |tail| ensures MayFollow(tail[i - 1], tail[i]) {
      assert MayFollow(ss[i], ss[i + 1]);
    }
    assert |ss| > 1 ==> MayFollow(ss[1 - 1], ss[1]);
  }

  /** What is printed after a bare name does not lengthen it. */
  lemma BareNameEnds(s: Spelling, next: Spelling, rest: string)
    requires s.Bare? && next.Valid() && MayFollow(s, next)
    ensures next.Print() + rest != "" && !IsNameChar((next.Print() + rest)[0])
  {
    if next.Words? {
      assert next.Print()[0] == next.text[0];
    }
  }

  lemma TextCase(t: string, rest: string, tail: seq<Piece>)
    requires t != "" && Pieces(rest, t) == [Text(t)] + tail
    ensures Pieces(EscapeDollars(t) + rest, "") == [Text(t)] + tail
  {
    TextPieces(t, rest, "");
    assert "" + t == t;
  }

  lemma NameCase(s: Spelling, rest: string, lit: string)
    requires s.Valid() && !s.Words? && (s.Bare? ==> rest == "" || !IsNameChar(rest[0]))
    ensures Pieces(s.Print() + rest, lit) == Flush(lit) + ([s.Meaning()] + Pieces(rest, ""))
  {
    if s.Bare? {
      BarePieces(s.name, rest, lit);
    } else {
      NamePieces(s.name, rest, lit);
    }
  }

  /** Printing pieces, names in braces or bare, and compiling the text gives the pieces back. */
  lemma {:induction false} PrintThenCompile(ss: seq<Spelling>, lit: string)
    requires Printable(ss) && (lit == "" || ss == [] || !ss[0].Words?)
    ensures Pieces(PrintPieces(ss), lit) == Flush(lit) + Meanings(ss)
    decreases |ss|
  {
    if ss != [] {
      var s, tail := ss[0], ss[1..];
      var rest := PrintPieces(tail);
      PrintableTail(ss);
      PrintThenCompile(tail, if s.Words? then s.text else "");
      if s.Words? {
        TextCase(s.text, rest, Meanings(tail));
      } else {
        if s.Bare? && tail != [] {
          BareNameEnds(s, tail[0], PrintPieces(tail[1..]));
        }
        assert Pieces(rest, "") == Meanings(tail);
        NameCase(s, rest, lit);
      }
    }
  }

  // ----- dollars that name nothing

  lemma {:induction false} NothingEscaped(u: string)
    requires '$' !in u
    ensures EscapeDollars(u) == u
  {
    if u != "" {
      NothingEscaped(u[1..]);
      assert u == [u[0]] + u[1..];
    }
  }

  lemma TextToTheEnd(u: string, lit: string)
    requires '$' !in u && lit != ""
    ensures Pieces(u, lit) == [Text(lit + u)]
  {
    NothingEscaped(u);
    TextPieces(u, "", lit);
    assert u + "" == u;
  }

  lemma AfterText(t: string, rest: string)
    requires t != ""
    ensures Pieces(EscapeDollars(t) + rest, "") == Pieces(rest, t)
  {
    TextPieces(t, rest, "");
    assert "" + t == t;
  }

  /** A dollar sign that names nothing, bare or before empty braces, begins a text of its own. */
  lemma NamelessDollar(t: string, u: string)
    requires t != "" && '$' !in u
    ensures u == "" || !(IsNameChar(u[0]) || u[0] == '{')
            ==> Pieces(EscapeDollars(t) + ("$" + u), "") == [Text(t), Text("$" + u)]
    ensures Pieces(EscapeDollars(t) + ("$" + ("{}" + u)), "") == [Text(t), Text("$" + u)]
  {
    if u == "" || !(IsNameChar(u[0]) || u[0] == '{') {
      Nameless(u, u, t, 0);
    }
    EmptyBraces(u);
    Nameless("{}" + u, u, t, 2);
  }

  lemma EmptyBraces(u: string)
    ensures NameAt("{}" + u) == ("", 2) && ("{}" + u)[2..] == u
  {
    assert ("{}" + u)[1..] == "}" + u;
  }

  lemma Nameless(s: string, u: string, t: string, n: nat)
    requires t != "" && '$' !in u
    requires NameAt(s) == ("", n) && s[n..] == u && (s == "" || s[0] != '$')
    ensures Pieces(EscapeDollars(t) + ("$" + s), "") == [Text(t), Text("$" + u)]
  {
    AfterText(t, "$" + s);
    NamelessStep(s, u, t, n);
    TextToTheEnd(u, "$");
  }

  lemma NamelessStep(s: string, u: string, t: string, n: nat)
    requires t != "" && NameAt(s) == ("", n) && s[n..] == u && (s == "" || s[0] != '$')
    ensures Pieces("$" + s, t) == [Text(t)] + Pieces(u, "$")
  {
    assert ("$" + s)[1..] == s && ("$" + s)[1 + n..] == u;
    assert PieceStep("$" + s, t) == ([Text(t)], 1 + n, "$");
  }

  /** A brace left open takes the rest of the format as the name. */
  lemma OpenBrace(t: string, n: string)
    requires t != "" && n != "" && '}' !in n
    ensures Pieces(EscapeDollars(t) + ("$" + ("{" + n)), "") == [Text(t), Name(n)]
  {
    var s := "{" + n;
    AfterText(t, "$" + s);
    OpenNameAt(n);
    NamePiece(s, t, n, |s|);
  }

  lemma OpenNameAt(n: string)
    requires '}' !in n
    ensures var s := "{" + n; NameAt(s) == (n, |s|) && s[|s|..] == ""
  {
    NoBrace(n);
    assert ("{" + n)[1..] == n && n[..|n|] == n;
  }

  lemma {:induction false} NoBrace(n: string)
    requires '}' !in n
    ensures UpToBrace(n) == |n|
  {
    if n != "" {
      NoBrace(n[1..]);
    }
  }
}
