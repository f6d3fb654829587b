/** The URI normaliser (src/intelligence/normalize.rs). A character stands for one byte: every byte the code
    looks at is ASCII, and it moves all other bytes unchanged. */
module Normalize {
  import opened Wrappers

  // ----- text

  predicate Contains(s: string, pat: string) {
    exists i :: 0 <= i <= |s| && pat <= s[i..]
  }

  lemma ContainsCons(s: string, pat: string)
    requires s != ""
    ensures Contains(s, pat) <==> pat <= s || Contains(s[1..], pat)
  {
    var t := s[1..];
    assert s[0..] == s;
    if Contains(s, pat) {
      var i :| 0 <= i <= |s| && pat <= s[i..];
      if i > 0 { assert t[i - 1..] == s[i..]; }
    }
    if Contains(t, pat) {
      var i :| 0 <= i <= |t| && pat <= t[i..];
      assert s[i + 1..] == t[i..];
    }
  }

  lemma ContainsEmpty(pat: string)
    requires pat != ""
    ensures !Contains("", pat)
  {
  }

  lemma ContainsFirst(s: string, pat: string)
    requires pat != ""
    ensures Contains(s, pat) ==> pat[0] in s
  {
    if Contains(s, pat) {
      var i :| 0 <= i <= |s| && pat <= s[i..];
      assert s[i] == s[i..][0] == pat[0];
    }
  }

  // ----- decoding, then collapsing

  function TryDecodeEscape(b1: char, b2: char): Option<char> {
    if b1 == '2' && (b2 == 'f' || b2 == 'F') then Some('/')
    else if b1 == '2' && (b2 == 'e' || b2 == 'E') then Some('.')
    else if b1 == '5' && (b2 == 'c' || b2 == 'C') then Some('/')
    else None
  }

  predicate StartsWithEscape(s: string) {
    |s| > 2 && s[0] == '%' && TryDecodeEscape(s[1], s[2]).Some?
  }

  /** Every escape decoded and every backslash turned into a slash. */
  function Unescape(s: string): string {
    if s == "" then ""
    else if StartsWithEscape(s) then [TryDecodeEscape(s[1], s[2]).value] + Unescape(s[3..])
    else if s[0] == '\\' then "/" + Unescape(s[1..])
    else [s[0]] + Unescape(s[1..])
  }

  /** Every run of slashes shortened to one. */
  function Collapse(s: string): string {
    if |s| < 2 then s
    else if s[0] == '/' && s[1] == '/' then Collapse(s[1..])
    else [s[0]] + Collapse(s[1..])
  }

  function Decoded(raw: string): string {
    Collapse(Unescape(raw))
  }

  // ----- the one-pass loop

  function PushSlash(out: string): string {
    if out != "" && out[|out| - 1] == '/' then out else out + "/"
  }

  lemma {:induction false} CollapseDropsSlash(out: string, rest: string)
    requires out != "" && out[|out| - 1] == '/'
    ensures Collapse(out + "/" + rest) == Collapse(out + rest)
  {
    if |out| == 1 {
      assert (out + "/" + rest)[1..] == out + rest;
    } else {
      assert (out + "/" + rest)[1..] == out[1..] + "/" + rest;
      assert (out + rest)[1..] == out[1..] + rest;
      CollapseDropsSlash(out[1..], rest);
    }
  }

  ghost predicate NoDoubleSlash(s: string) {
    forall i :: 0 < i < |s| ==> !(s[i - 1] == '/' && s[i] == '/')
  }

  lemma DoubleSlashContained(s: string)
    ensures !Contains(s, "//") ==> NoDoubleSlash(s)
  {
    forall i | 0 < i < |s| && s[i - 1] == '/' && s[i] == '/' ensures Contains(s, "//") {
      assert "//" <= s[i - 1..];
    }
  }

  lemma {:induction false} CollapseFixed(s: string)
    requires NoDoubleSlash(s)
    ensures Collapse(s) == s
  {
    if |s| >= 2 {
      assert !(s[0] == '/' && s[1] == '/');
      forall i | 0 < i < |s[1..]| ensures !(s[1..][i - 1] == '/' && s[1..][i] == '/') {
        assert !(s[i] == '/' && s[i + 1] == '/');
      }
      CollapseFixed(s[1..]);
    }
  }

  /** Pushing a character, with slashes collapsed, keeps the output on course for the decoded text. */
  lemma PushStep(out: string, c: char, rest: string)
    requires NoDoubleSlash(out)
    ensures var out' := if c == '/' then PushSlash(out) else out + [c];
            NoDoubleSlash(out') && Collapse(out' + rest) == Collapse(out + ([c] + rest))
  {
    if c == '/' && out != "" && out[|out| - 1] == '/' {
      CollapseDropsSlash(out, rest);
      assert out + "/" + rest == out + ("/" + rest);
    } else {
      assert out + [c] + rest == out + ([c] + rest);
    }
  }

  method DecodeAndCollapse(raw: string) returns (out: string)
    ensures out == Decoded(raw)
  {
    out := "";
    var i := 0;
    assert raw[0..] == raw && "" + Unescape(raw) == Unescape(raw);
    while i < |raw|
      invariant 0 <= i <= |raw| && NoDoubleSlash(out)
      invariant Collapse(out + Unescape(raw[i..])) == Decoded(raw)
    {
      var b := raw[i];
      ghost var rest := raw[i..];
      if b == '%' && i + 2 < |raw| {
        var decoded := TryDecodeEscape(raw[i + 1], raw[i + 2]);
        if decoded.Some? {
          assert StartsWithEscape(rest) && rest[3..] == raw[i + 3..];
          PushStep(out, decoded.value, Unescape(raw[i + 3..]));
          if decoded.value == '/' {
            out := PushSlash(out);
          } else {
            out := out + [decoded.value];
          }
          i := i + 3;
          continue;
        }
      }
      assert !StartsWithEscape(rest) && rest[1..] == raw[i + 1..];
      if b == '\\' || b == '/' {
        PushStep(out, '/', Unescape(raw[i + 1..]));
        out := PushSlash(out);
        i := i + 1;
        continue;
      }
      PushStep(out, b, Unescape(raw[i + 1..]));
      out := out + [b];
      i := i + 1;
    }
    assert raw[i..] == "" && out + "" == out;
    CollapseFixed(out);
  }

  // ----- where text in the output comes from

  /** A text that neither decoding nor collapsing can produce. */
  ghost predicate Inert(pat: string) {
    pat != "" && '/' !in pat && '.' !in pat
  }

  lemma {:induction false} PrefixOfUnescape(s: string, pat: string)
    requires '/' !in pat && '.' !in pat && pat <= Unescape(s)
    ensures pat <= s
  {
    if pat != "" {
      assert pat[0] in pat && pat[0] == Unescape(s)[0];
      assert s != "" && !StartsWithEscape(s) && s[0] != '\\';
      assert Unescape(s)[1..] == Unescape(s[1..]);
      PrefixOfUnescape(s[1..], pat[1..]);
    }
  }

  lemma {:induction false} PrefixOfCollapse(s: string, pat: string)
    requires '/' !in pat && pat <= Collapse(s)
    ensures pat <= s
  {
    if pat != "" {
      CollapseFirst(s);
      assert pat[0] in pat && pat[0] == Collapse(s)[0];
      if |s| >= 2 {
        assert Collapse(s)[1..] == Collapse(s[1..]);
        PrefixOfCollapse(s[1..], pat[1..]);
      }
    }
  }

  lemma {:induction false} CollapseFirst(s: string)
    ensures s != "" ==> Collapse(s) != "" && Collapse(s)[0] == s[0]
  {
    if |s| >= 2 {
      CollapseFirst(s[1..]);
    }
  }

  lemma {:induction false} UnescapeKeeps(s: string, pat: string)
    requires Inert(pat) && Contains(Unescape(s), pat)
    ensures Contains(s, pat)
  {
    var u := Unescape(s);
    if s == "" {
      ContainsEmpty(pat);
    } else {
      ContainsCons(u, pat);
      if pat <= u {
        PrefixOfUnescape(s, pat);
        ContainsCons(s, pat);
      } else {
        var k := if StartsWithEscape(s) then 3 else 1;
        assert u[1..] == Unescape(s[k..]);
        UnescapeKeeps(s[k..], pat);
        var i :| 0 <= i <= |s[k..]| && pat <= s[k..][i..];
        assert s[k + i..] == s[k..][i..];
      }
    }
  }

  lemma {:induction false} CollapseKeeps(s: string, pat: string)
    requires Inert(pat) && Contains(Collapse(s), pat)
    ensures Contains(s, pat)
  {
    if |s| >= 2 {
      ContainsCons(s, pat);
      if s[0] == '/' && s[1] == '/' {
        CollapseKeeps(s[1..], pat);
      } else {
        ContainsCons(Collapse(s), pat);
        assert Collapse(s)[1..] == Collapse(s[1..]);
        if pat <= Collapse(s) {
          PrefixOfCollapse(s, pat);
        } else {
          CollapseKeeps(s[1..], pat);
        }
      }
    }
  }

  // ----- the normal form

  /** The spellings of `/`, `.` and backslash that must not be left. */
  const ESCAPES: seq<string> := ["%2f", "%2F", "%2e", "%2E", "%5c", "%5C"]

  ghost predicate NormalForm(s: string) {
    && '\\' !in s
    && NoDoubleSlash(s)
    && forall e :: e in ESCAPES ==> !Contains(s, e)
  }

  /** Those spellings are exactly the escapes that are decoded. */
  lemma EscapesDecode(a: char, b: char)
    ensures ['%', a, b] in ESCAPES <==> TryDecodeEscape(a, b).Some?
  {
    assert "%2f" == ['%', '2', 'f'] && "%2F" == ['%', '2', 'F'] && "%2e" == ['%', '2', 'e'];
    assert "%2E" == ['%', '2', 'E'] && "%5c" == ['%', '5', 'c'] && "%5C" == ['%', '5', 'C'];
    assert ['%', a, b][1] == a && ['%', a, b][2] == b;
  }

  lemma NoEscapesLeft(s: string)
    ensures (forall e :: e in ESCAPES ==> !Contains(s, e))
       <==> (forall a, b :: TryDecodeEscape(a, b).Some? ==> !Contains(s, ['%', a, b]))
  {
    forall a, b ensures ['%', a, b] in ESCAPES <==> TryDecodeEscape(a, b).Some? {
      EscapesDecode(a, b);
    }
    forall e | e in ESCAPES ensures e == ['%', e[1], e[2]] {
    }
  }

  lemma {:induction false} CollapseNoDouble(s: string)
    ensures NoDoubleSlash(Collapse(s))
    ensures forall c :: c in Collapse(s) ==> c in s
  {
    if |s| >= 2 {
      CollapseNoDouble(s[1..]);
      CollapseFirst(s[1..]);
      var t := Collapse(s[1..]);
      if !(s[0] == '/' && s[1] == '/') {
        forall i | 0 < i < |[s[0]] + t| ensures !(([s[0]] + t)[i - 1] == '/' && ([s[0]] + t)[i] == '/') {
          if i > 1 { assert !(t[i - 2] == '/' && t[i - 1] == '/'); }
        }
      }
    }
  }

  lemma {:induction false} UnescapeNoBackslash(s: string)
    ensures '\\' !in Unescape(s)
  {
    if s != "" {
      UnescapeNoBackslash(s[if StartsWithEscape(s) then 3 else 1..]);
    }
  }

  lemma EscapePrefix(s: string, a: char, b: char)
    requires TryDecodeEscape(a, b).Some?
    ensures ['%', a, b] <= s ==> StartsWithEscape(s)
    ensures StartsWithEscape(s) ==> Contains(s, ['%', s[1], s[2]])
  {
    if ['%', a, b] <= s {
      assert s[0] == ['%', a, b][0] && s[1] == ['%', a, b][1] && s[2] == ['%', a, b][2];
    }
    assert s[0..] == s;
  }

  lemma {:induction false} UnescapeNoEscape(s: string, a: char, b: char)
    requires TryDecodeEscape(a, b).Some?
    ensures !Contains(Unescape(s), ['%', a, b])
  {
    var u, pat := Unescape(s), ['%', a, b];
    if s == "" {
      ContainsEmpty(pat);
    } else {
      var k := if StartsWithEscape(s) then 3 else 1;
      assert u[1..] == Unescape(s[k..]);
      UnescapeNoEscape(s[k..], a, b);
      ContainsCons(u, pat);
      if pat <= u {
        PrefixOfUnescape(s, pat);
        EscapePrefix(s, a, b);
      }
    }
  }

  /** The output has no backslash, no adjacent slashes and no decodable escape left. */
  lemma DecodedIsNormal(raw: string)
    ensures NormalForm(Decoded(raw))
  {
    CollapseNoDouble(Unescape(raw));
    UnescapeNoBackslash(raw);
    forall a, b | TryDecodeEscape(a, b).Some? ensures !Contains(Decoded(raw), ['%', a, b]) {
      UnescapeNoEscape(raw, a, b);
      if Contains(Decoded(raw), ['%', a, b]) {
        CollapseKeeps(Unescape(raw), ['%', a, b]);
      }
    }
    NoEscapesLeft(Decoded(raw));
  }

  lemma {:induction false} UnescapeFixed(s: string)
    requires '\\' !in s && forall a, b :: TryDecodeEscape(a, b).Some? ==> !Contains(s, ['%', a, b])
    ensures Unescape(s) == s
  {
    if s != "" {
      EscapePrefix(s, '2', 'f');
      forall a, b | TryDecodeEscape(a, b).Some? ensures !Contains(s[1..], ['%', a, b]) {
        ContainsCons(s, ['%', a, b]);
      }
      UnescapeFixed(s[1..]);
    }
  }

  /** The decoder's fixed points are exactly the normal forms. */
  lemma NormalFormIffFixed(s: string)
    ensures NormalForm(s) <==> Decoded(s) == s
  {
    if NormalForm(s) {
      NoEscapesLeft(s);
      UnescapeFixed(s);
      CollapseFixed(s);
    }
    DecodedIsNormal(s);
  }

  lemma DecodeIdempotent(raw: string)
    ensures Decoded(Decoded(raw)) == Decoded(raw)
  {
    DecodedIsNormal(raw);
    NormalFormIffFixed(Decoded(raw));
  }

  // ----- respelling separators

  predicate IsSeparator(sep: string) {
    sep == "/" || sep == "\\" || sep == "%2f" || sep == "%2F" || sep == "%5c" || sep == "%5C"
  }

  ghost function Concat(parts: seq<string>): string {
    if parts == [] then "" else parts[0] + Concat(parts[1..])
  }

  ghost predicate OpensLikeSeparator(y: string) {
    y == "" || y[0] == '/' || y[0] == '\\' || y[0] == '%' || y[0] == '.'
  }

  lemma EscapeWithin(x: string, y: string)
    requires x != "" && OpensLikeSeparator(y)
    ensures StartsWithEscape(x + y) <==> StartsWithEscape(x)
  {
    var s := x + y;
    assert |x| == 1 && y != "" ==> s[1] == y[0];
    assert |x| == 2 && y != "" ==> s[2] == y[0];
  }

  /** The first decoded character, and the text after what it was decoded from. */
  lemma FirstDecoded(x: string, y: string) returns (c: char, k: nat)
    requires x != "" && OpensLikeSeparator(y)
    ensures 0 < k <= |x|
    ensures Unescape(x) == [c] + Unescape(x[k..]) && Unescape(x + y) == [c] + Unescape(x[k..] + y)
  {
    EscapeWithin(x, y);
    k := if StartsWithEscape(x) then 3 else 1;
    c := Unescape(x)[0];
    assert (x + y)[k..] == x[k..] + y && (x + y)[0] == x[0];
    if k == 3 {
      assert (x + y)[1] == x[1] && (x + y)[2] == x[2];
    }
  }

  /** Decoding works piecewise where the second piece starts like a separator. */
  lemma {:induction false} UnescapeConcat(x: string, y: string)
    requires OpensLikeSeparator(y)
    ensures Unescape(x + y) == Unescape(x) + Unescape(y)
  {
    if x == "" {
      assert x + y == y;
    } else {
      var c, k := FirstDecoded(x, y);
      UnescapeConcat(x[k..], y);
      assert [c] + (Unescape(x[k..]) + Unescape(y)) == ([c] + Unescape(x[k..])) + Unescape(y);
    }
  }

  lemma SeparatorDecodes(sep: string, y: string)
    requires IsSeparator(sep)
    ensures Unescape(sep + y) == "/" + Unescape(y)
  {
    var s := sep + y;
    assert s[|sep|..] == y;
    if |sep| == 3 {
      assert s[0] == sep[0] && s[1] == sep[1] && s[2] == sep[2];
    } else {
      assert s[0] == sep[0] && !StartsWithEscape(s);
    }
  }

  /** Decodes to one slash, whatever follows. */
  ghost predicate SlashLike(sep: string) {
    forall y :: Unescape(sep + y) == "/" + Unescape(y)
  }

  lemma SeparatorsAreSlashLike(seps: seq<string>)
    requires forall s :: s in seps ==> IsSeparator(s)
    ensures forall s :: s in seps ==> SlashLike(s)
  {
    forall s, y | s in seps ensures Unescape(s + y) == "/" + Unescape(y) {
      SeparatorDecodes(s, y);
    }
  }

  lemma SlashInFront(n: nat, t: string)
    requires n > 0
    ensures "/" + (Slashes(n - 1) + t) == Slashes(n) + t
  {
  }

  /** A run of separators decodes to a run of slashes. */
  lemma {:induction false} SeparatorsDecode(seps: seq<string>, y: string)
    requires forall s :: s in seps ==> SlashLike(s)
    ensures Unescape(Concat(seps) + y) == Slashes(|seps|) + Unescape(y)
  {
    if seps == [] {
      assert Concat(seps) + y == y;
    } else {
      var rest := Concat(seps[1..]) + y;
      SeparatorsDecode(seps[1..], y);
      assert SlashLike(seps[0]) && Concat(seps) + y == seps[0] + rest;
      assert Unescape(seps[0] + rest) == "/" + Unescape(rest);
      SlashInFront(|seps|, Unescape(y));
    }
  }

  ghost function Slashes(n: nat): string {
    if n == 0 then "" else "/" + Slashes(n - 1)
  }

  lemma {:induction false} SlashRunCollapses(out: string, n: nat, rest: string)
    requires n > 0
    ensures Collapse(out + Slashes(n) + rest) == Collapse(out + "/" + rest)
    decreases n
  {
    if n == 1 {
      assert Slashes(1) == "/";
    } else {
      assert out + Slashes(n) + rest == (out + "/") + Slashes(n - 1) + rest;
      SlashRunCollapses(out + "/", n - 1, rest);
      CollapseDropsSlash(out + "/", rest);
    }
  }

  /** Respelling a separator, in any context, as any run of separators leaves the result unchanged. */
  lemma RespellingInvisible(x: string, seps: seq<string>, seps': seq<string>, y: string)
    requires seps != [] && forall s :: s in seps ==> IsSeparator(s)
    requires seps' != [] && forall s :: s in seps' ==> IsSeparator(s)
    ensures Decoded(x + Concat(seps) + y) == Decoded(x + Concat(seps') + y)
  {
    SeparatorInContext(x, seps, y);
    SeparatorInContext(x, seps', y);
  }

  lemma SeparatorRunOpens(seps: seq<string>, y: string)
    requires seps != [] && IsSeparator(seps[0])
    ensures OpensLikeSeparator(Concat(seps) + y)
  {
    assert (Concat(seps) + y)[0] == seps[0][0];
  }

  lemma SlashLikeInContext(x: string, seps: seq<string>, y: string)
    requires seps != [] && OpensLikeSeparator(Concat(seps) + y) && forall s :: s in seps ==> SlashLike(s)
    ensures Decoded(x + Concat(seps) + y) == Collapse(Unescape(x) + "/" + Unescape(y))
  {
    var tail := Concat(seps) + y;
    assert x + Concat(seps) + y == x + tail;
    UnescapeConcat(x, tail);
    SeparatorsDecode(seps, y);
    assert Unescape(x) + (Slashes(|seps|) + Unescape(y)) == Unescape(x) + Slashes(|seps|) + Unescape(y);
    SlashRunCollapses(Unescape(x), |seps|, Unescape(y));
  }

  lemma SeparatorInContext(x: string, seps: seq<string>, y: string)
    requires seps != [] && forall s :: s in seps ==> IsSeparator(s)
    ensures Decoded(x + Concat(seps) + y) == Collapse(Unescape(x) + "/" + Unescape(y))
  {
    assert seps[0] in seps;
    SeparatorRunOpens(seps, y);
    SeparatorsAreSlashLike(seps);
    SlashLikeInContext(x, seps, y);
  }

  // ----- respelling dots

  predicate IsDot(dot: string) {
    dot == "." || dot == "%2e" || dot == "%2E"
  }

  lemma DotDecodes(dot: string, y: string)
    requires IsDot(dot)
    ensures Unescape(dot + y) == "." + Unescape(y)
  {
    var s := dot + y;
    assert s[|dot|..] == y;
    if |dot| == 3 {
      assert s[0] == dot[0] && s[1] == dot[1] && s[2] == dot[2];
    } else {
      assert s[0] == '.' && !StartsWithEscape(s);
    }
  }

  lemma DotInContext(x: string, dot: string, y: string)
    requires IsDot(dot)
    ensures Decoded(x + dot + y) == Collapse(Unescape(x) + ("." + Unescape(y)))
  {
    assert x + dot + y == x + (dot + y) && (dot + y)[0] == dot[0];
    UnescapeConcat(x, dot + y);
    DotDecodes(dot, y);
  }

  /** Respelling a dot leaves the result unchanged, in any context: neither spelling can complete or break an
      escape that the text before it has begun. */
  lemma DotRespellingInvisible(x: string, dot: string, dot': string, y: string)
    requires IsDot(dot) && IsDot(dot')
    ensures Decoded(x + dot + y) == Decoded(x + dot' + y)
  {
    DotInContext(x, dot, y);
    DotInContext(x, dot', y);
  }

  // ----- malicious patterns and the two paths

  const MALICIOUS_PATTERNS: seq<string> :=
    ["%00", "\0", "%0d%0a", "%0D%0A", "%0d", "%0D", "%0a", "%0A", "\r", "\n"]

  predicate ContainsMalicious(s: string) {
    exists pat :: pat in MALICIOUS_PATTERNS && Contains(s, pat)
  }

  datatype NormalizedUri = Clean(path: string) | ImmediateMalicious

  function NormalizeRequestUri(raw: string): NormalizedUri {
    if ContainsMalicious(raw) then ImmediateMalicious
    else if '%' !in raw && '\\' !in raw && !Contains(raw, "//") then Clean(raw)
    else if ContainsMalicious(Decoded(raw)) then ImmediateMalicious
    else Clean(Decoded(raw))
  }

  /** A null byte or line break at this place, raw or escaped. */
  predicate ControlAt(s: string, i: nat) {
    && i < |s|
    && (|| s[i] == '\0' || s[i] == '\r' || s[i] == '\n'
        || (i + 2 < |s| && s[i] == '%' && s[i + 1] == '0'
            && (s[i + 2] == '0' || s[i + 2] == 'a' || s[i + 2] == 'A' || s[i + 2] == 'd' || s[i + 2] == 'D')))
  }

  lemma PatternIsControl(s: string, pat: string, i: nat)
    requires pat in MALICIOUS_PATTERNS && i <= |s| && pat <= s[i..]
    ensures ControlAt(s, i)
  {
    var t := s[i..];
    assert t[0] == pat[0] && t[0] == s[i];
    if |pat| >= 3 {
      assert t[1] == pat[1] && t[2] == pat[2] && t[1] == s[i + 1] && t[2] == s[i + 2];
    }
  }

  /** The pattern that a control character stands for. */
  function PatternAt(s: string, i: nat): string
    requires ControlAt(s, i)
  {
    if s[i] == '%' then ['%', '0', s[i + 2]] else [s[i]]
  }

  lemma ControlIsPattern(s: string, i: nat)
    requires ControlAt(s, i)
    ensures PatternAt(s, i) in MALICIOUS_PATTERNS && PatternAt(s, i) <= s[i..]
  {
    var c := if s[i] == '%' then s[i + 2] else ' ';
    if s[i] == '%' {
      assert MALICIOUS_PATTERNS[0] == ['%', '0', '0'] && MALICIOUS_PATTERNS[4] == ['%', '0', 'd'];
      assert MALICIOUS_PATTERNS[5] == ['%', '0', 'D'] && MALICIOUS_PATTERNS[6] == ['%', '0', 'a'];
      assert MALICIOUS_PATTERNS[7] == ['%', '0', 'A'];
      assert ['%', '0', c] in MALICIOUS_PATTERNS;
    } else {
      assert MALICIOUS_PATTERNS[1] == ['\0'] && MALICIOUS_PATTERNS[8] == ['\r'] && MALICIOUS_PATTERNS[9] == ['\n'];
    }
  }

  /** Malicious is exactly what has a null byte or line break, raw or escaped. */
  lemma MaliciousMeaning(s: string)
    ensures ContainsMalicious(s) <==> exists i :: ControlAt(s, i)
  {
    if ContainsMalicious(s) {
      var pat :| pat in MALICIOUS_PATTERNS && Contains(s, pat);
      var i :| 0 <= i <= |s| && pat <= s[i..];
      PatternIsControl(s, pat, i);
    }
    if i :| ControlAt(s, i) {
      ControlIsPattern(s, i);
      assert Contains(s, PatternAt(s, i));
    }
  }

  /** Decoding never introduces a malicious pattern absent from the input. */
  lemma DecodingAddsNothingMalicious(raw: string)
    requires ContainsMalicious(Decoded(raw))
    ensures ContainsMalicious(raw)
  {
    var pat :| pat in MALICIOUS_PATTERNS && Contains(Decoded(raw), pat);
    assert Inert(pat);
    CollapseKeeps(Unescape(raw), pat);
    UnescapeKeeps(raw, pat);
  }

  /** The fast path returns what the slow path would. */
  lemma FastPathIsSlowPath(raw: string)
    requires '%' !in raw && '\\' !in raw && !Contains(raw, "//")
    ensures Decoded(raw) == raw
  {
    forall e | e in ESCAPES ensures !Contains(raw, e) {
      ContainsFirst(raw, e);
    }
    DoubleSlashContained(raw);
    NormalFormIffFixed(raw);
  }

  /** So normalisation has one rule: reject what is malicious as written, otherwise return the normal form. */
  lemma NormalizeMeaning(raw: string)
    ensures NormalizeRequestUri(raw) == if ContainsMalicious(raw) then ImmediateMalicious else Clean(Decoded(raw))
  {
    if '%' !in raw && '\\' !in raw && !Contains(raw, "//") {
      FastPathIsSlowPath(raw);
    }
    if ContainsMalicious(Decoded(raw)) {
      DecodingAddsNothingMalicious(raw);
    }
  }

  // ----- respelling in the whole normaliser

  /** No occurrence of `pat` can overlap `mid`. */
  ghost predicate Foreign(mid: string, pat: string) {
    && mid != "" && pat != ""
    && (forall k :: 0 < k < |mid| ==> mid[k] !in pat)
    && mid[0] != pat[|pat| - 1]
    && (|mid| == 1 ==> mid[0] !in pat)
  }

  lemma ContainsAt(s: string, pat: string, i: nat)
    requires i + |pat| <= |s| && s[i..i + |pat|] == pat
    ensures Contains(s, pat)
  {
    assert pat <= s[i..];
  }

  lemma SharedChar(s: string, x: string, mid: string, y: string, pat: string, i: nat, j: nat)
    requires s == x + mid + y && i <= |s| && pat <= s[i..]
    requires |x| <= j < |x| + |mid| && i <= j < i + |pat|
    ensures mid[j - |x|] == pat[j - i] && pat[j - i] in pat
  {
    assert s[j] == s[i..][j - i] == pat[j - i];
  }

  lemma OccursBeside(x: string, mid: string, y: string, pat: string, i: nat)
    requires Foreign(mid, pat) && i <= |x + mid + y| && pat <= (x + mid + y)[i..]
    ensures Contains(x, pat) || Contains(y, pat)
  {
    var s := x + mid + y;
    if i + |pat| <= |x| {
      assert x[i..i + |pat|] == s[i..][..|pat|];
      ContainsAt(x, pat, i);
    } else if i >= |x| + |mid| {
      var j := i - |x| - |mid|;
      assert y[j..j + |pat|] == s[i..][..|pat|];
      ContainsAt(y, pat, j);
    } else {
      SharedChar(s, x, mid, y, pat, i,
                 if i > |x| then i else if |mid| == 1 || i + |pat| == |x| + 1 then |x| else |x| + 1);
      assert false;
    }
  }

  lemma ContainsBeside(x: string, mid: string, y: string, pat: string)
    requires Foreign(mid, pat)
    ensures Contains(x + mid + y, pat) <==> Contains(x, pat) || Contains(y, pat)
  {
    var s := x + mid + y;
    if Contains(s, pat) {
      var i :| 0 <= i <= |s| && pat <= s[i..];
      OccursBeside(x, mid, y, pat, i);
    }
    if Contains(x, pat) {
      var i :| 0 <= i <= |x| && pat <= x[i..];
      assert s[i..i + |pat|] == x[i..][..|pat|];
      ContainsAt(s, pat, i);
    }
    if Contains(y, pat) {
      var i :| 0 <= i <= |y| && pat <= y[i..];
      var j := |x| + |mid| + i;
      assert s[j..j + |pat|] == y[i..][..|pat|];
      ContainsAt(s, pat, j);
    }
  }

  lemma SpellingsAreForeign(mid: string, pat: string)
    requires (IsSeparator(mid) || IsDot(mid)) && pat in MALICIOUS_PATTERNS
    ensures Foreign(mid, pat)
  {
  }

  lemma MaliciousBeside(x: string, mid: string, y: string)
    requires IsSeparator(mid) || IsDot(mid)
    ensures ContainsMalicious(x + mid + y) <==> ContainsMalicious(x) || ContainsMalicious(y)
  {
    forall pat | pat in MALICIOUS_PATTERNS
      ensures Contains(x + mid + y, pat) <==> Contains(x, pat) || Contains(y, pat)
    {
      SpellingsAreForeign(mid, pat);
      ContainsBeside(x, mid, y, pat);
    }
  }

  lemma EmptyIsHarmless()
    ensures !ContainsMalicious("")
  {
    forall pat | pat in MALICIOUS_PATTERNS ensures !Contains("", pat) {
      ContainsEmpty(pat);
    }
  }

  lemma {:induction false} MaliciousAround(x: string, seps: seq<string>, y: string)
    requires seps != [] && forall s :: s in seps ==> IsSeparator(s)
    ensures ContainsMalicious(x + Concat(seps) + y) <==> ContainsMalicious(x) || ContainsMalicious(y)
    decreases |seps|
  {
    var rest := Concat(seps[1..]) + y;
    assert seps[0] in seps && x + Concat(seps) + y == x + seps[0] + rest;
    MaliciousBeside(x, seps[0], rest);
    if |seps| == 1 {
      assert rest == y;
    } else {
      MaliciousAround("", seps[1..], y);
      assert "" + Concat(seps[1..]) + y == rest;
      EmptyIsHarmless();
    }
  }

  /** The whole normaliser cannot tell two spellings of a separator apart. */
  lemma SeparatorsNormalizeAlike(x: string, seps: seq<string>, seps': seq<string>, y: string)
    requires seps != [] && forall s :: s in seps ==> IsSeparator(s)
    requires seps' != [] && forall s :: s in seps' ==> IsSeparator(s)
    ensures NormalizeRequestUri(x + Concat(seps) + y) == NormalizeRequestUri(x + Concat(seps') + y)
  {
    RespellingInvisible(x, seps, seps', y);
    MaliciousAround(x, seps, y);
    MaliciousAround(x, seps', y);
    NormalizeMeaning(x + Concat(seps) + y);
    NormalizeMeaning(x + Concat(seps') + y);
  }

  /** Nor two spellings of a dot: what is not malicious has its dots decoded. */
  lemma DotsNormalizeAlike(x: string, dot: string, dot': string, y: string)
    requires IsDot(dot) && IsDot(dot')
    ensures NormalizeRequestUri(x + dot + y) == NormalizeRequestUri(x + dot' + y)
  {
    DotRespellingInvisible(x, dot, dot', y);
    MaliciousBeside(x, dot, y);
    MaliciousBeside(x, dot', y);
    NormalizeMeaning(x + dot + y);
    NormalizeMeaning(x + dot' + y);
  }
}
