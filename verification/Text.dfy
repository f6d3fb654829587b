/** String operations of the source's standard library, over characters. */
module Text {
  import opened Wrappers

  /** The Unicode White_Space property. */
  predicate IsWhitespace(c: char) {
    || c == ' ' || '\t' <= c <= '\r' || c == '\U{85}' || c == '\U{A0}' || c == '\U{1680}'
    || '\U{2000}' <= c <= '\U{200A}' || c == '\U{2028}' || c == '\U{2029}' || c == '\U{202F}'
    || c == '\U{205F}' || c == '\U{3000}'
  }

  predicate IsBlank(s: string) {
    forall i :: 0 <= i < |s| ==> IsWhitespace(s[i])
  }

  function TrimStart(s: string): string {
    if s != "" && IsWhitespace(s[0]) then TrimStart(s[1..]) else s
  }

  function TrimEnd(s: string): string {
    if s != "" && IsWhitespace(s[|s| - 1]) then TrimEnd(s[..|s| - 1]) else s
  }

  function Trim(s: string): string {
    TrimEnd(TrimStart(s))
  }

  lemma {:induction false} TrimStartMeaning(s: string)
    ensures |TrimStart(s)| <= |s| && IsBlank(s[..|s| - |TrimStart(s)|])
    ensures s == s[..|s| - |TrimStart(s)|] + TrimStart(s)
    ensures TrimStart(s) != "" ==> !IsWhitespace(TrimStart(s)[0])
  {
    if s != "" && IsWhitespace(s[0]) {
      TrimStartMeaning(s[1..]);
      var n := |s| - |TrimStart(s)|;
      assert s[..n] == [s[0]] + s[1..][..n - 1];
    }
  }

  lemma {:induction false} TrimEndMeaning(s: string)
    ensures |TrimEnd(s)| <= |s| && IsBlank(s[|TrimEnd(s)|..])
    ensures s == TrimEnd(s) + s[|TrimEnd(s)|..]
    ensures TrimEnd(s) != "" ==> !IsWhitespace(TrimEnd(s)[|TrimEnd(s)| - 1])
  {
    if s != "" && IsWhitespace(s[|s| - 1]) {
      TrimEndMeaning(s[..|s| - 1]);
      var n := |TrimEnd(s)|;
      assert s[n..] == s[..|s| - 1][n..] + [s[|s| - 1]];
    }
  }

  /** Trimming takes off blanks at both ends, and no more. */
  lemma TrimMeaning(s: string) returns (before: string, after: string)
    ensures s == before + Trim(s) + after && IsBlank(before) && IsBlank(after)
    ensures Trim(s) != "" ==> !IsWhitespace(Trim(s)[0]) && !IsWhitespace(Trim(s)[|Trim(s)| - 1])
  {
    var t := TrimStart(s);
    TrimStartMeaning(s);
    TrimEndMeaning(t);
    before, after := s[..|s| - |t|], t[|Trim(s)|..];
    assert before + (Trim(s) + after) == before + Trim(s) + after;
  }

  lemma TrimTwice(s: string)
    ensures Trim(Trim(s)) == Trim(s)
  {
    var before, after := TrimMeaning(s);
  }

  function AsciiUpper(s: string): string {
    if s == "" then ""
    else [if 'a' <= s[0] <= 'z' then s[0] - 'a' + 'A' else s[0]] + AsciiUpper(s[1..])
  }

  /** Letter by letter, lower case a to z becomes upper case and everything else stays. */
  lemma {:induction false} AsciiUpperMeaning(s: string, i: nat)
    requires i < |s|
    ensures |AsciiUpper(s)| == |s|
    ensures 'a' <= s[i] <= 'z' ==> AsciiUpper(s)[i] as int == s[i] as int - 32
    ensures !('a' <= s[i] <= 'z') ==> AsciiUpper(s)[i] == s[i]
  {
    if |s| > 1 {
      AsciiUpperMeaning(s[1..], if i > 0 then i - 1 else 0);
    }
  }

  /** Length of the text before the first whitespace. */
  function WordLength(s: string): (n: nat)
    ensures n <= |s|
  {
    if s == "" || IsWhitespace(s[0]) then 0 else 1 + WordLength(s[1..])
  }

  lemma {:induction false} WordLengthMeaning(s: string)
    ensures forall k :: 0 <= k < WordLength(s) ==> !IsWhitespace(s[k])
    ensures WordLength(s) < |s| ==> IsWhitespace(s[WordLength(s)])
  {
    if s != "" && !IsWhitespace(s[0]) {
      WordLengthMeaning(s[1..]);
      forall k | 0 <= k < WordLength(s) ensures !IsWhitespace(s[k]) {
        if k > 0 {
          assert s[k] == s[1..][k - 1];
        }
      }
    }
  }

  lemma {:induction false} WordBeforeSpace(word: string, rest: string)
    requires forall i :: 0 <= i < |word| ==> !IsWhitespace(word[i])
    requires rest == "" || IsWhitespace(rest[0])
    ensures WordLength(word + rest) == |word|
  {
    if word == "" {
      assert word + rest == rest;
    } else {
      assert (word + rest)[1..] == word[1..] + rest;
      WordBeforeSpace(word[1..], rest);
    }
  }

  lemma {:induction false} TrimStartSkips(ws: string, s: string)
    requires IsBlank(ws) && (s == "" || !IsWhitespace(s[0]))
    ensures TrimStart(ws + s) == s
  {
    if ws == "" {
      assert ws + s == s;
    } else {
      assert (ws + s)[1..] == ws[1..] + s;
      TrimStartSkips(ws[1..], s);
    }
  }

  lemma {:induction false} TrimBlank(ws: string)
    requires IsBlank(ws)
    ensures Trim(ws) == ""
  {
    assert ws + "" == ws;
    TrimStartSkips(ws, "");
  }

  /** Index of the first occurrence of `pat`. */
  function Find(s: string, pat: string): Option<nat> {
    if pat <= s then Some(0)
    else if s == "" then None
    else
      match Find(s[1..], pat)
      case Some(i) => Some(i + 1)
      case None => None
  }

  lemma {:induction false} FindFirst(s: string, pat: string)
    ensures match Find(s, pat)
            case Some(i) => i + |pat| <= |s| && s[i..i + |pat|] == pat
                            && forall j :: 0 <= j < i ==> !(pat <= s[j..])
            case None => forall j :: 0 <= j <= |s| ==> !(pat <= s[j..])
  {
    assert s[0..] == s;
    if !(pat <= s) && s != "" {
      var t := s[1..];
      FindFirst(t, pat);
      forall j | 0 < j <= |s| ensures t[j - 1..] == s[j..] {
      }
      if Find(t, pat).Some? {
        var i := Find(t, pat).value;
        assert t[i..i + |pat|] == s[i + 1..i + 1 + |pat|];
      }
    }
  }

  /** What follows an occurrence cannot bring in an earlier one. */
  lemma {:induction false} FindStable(s: string, pat: string, more: string)
    requires Find(s, pat).Some?
    ensures Find(s + more, pat) == Find(s, pat)
  {
    FindFirst(s, pat);
    var i := Find(s, pat).value;
    if pat <= s {
      assert s[..|pat|] == (s + more)[..|pat|];
    } else {
      assert (s + more)[1..] == s[1..] + more;
      FindStable(s[1..], pat, more);
      assert |pat| <= |s|;
      assert (s + more)[..|pat|] == s[..|pat|];
    }
  }

  // ----- splitting at a character

  /** Index of the first `c`, or the length if there is none. */
  function Until(s: string, c: char): (n: nat)
    ensures n <= |s|
    ensures n < |s| ==> s[n] == c
  {
    if s == "" || s[0] == c then 0 else 1 + Until(s[1..], c)
  }

  lemma {:induction false} UntilFirst(a: string, c: char, rest: string)
    requires c !in a
    ensures Until(a + [c] + rest, c) == |a| && Until(a, c) == |a|
  {
    if a != "" {
      assert a[0] in a && (a + [c] + rest)[1..] == a[1..] + [c] + rest;
      UntilFirst(a[1..], c, rest);
    }
  }

  /** The parts between the separators. */
  function Parts(s: string, c: char): seq<string>
    decreases |s|
  {
    var n := Until(s, c);
    if n == |s| then [s] else [s[..n]] + Parts(s[n + 1..], c)
  }

  lemma PartsCons(a: string, c: char, rest: string)
    requires c !in a
    ensures Parts(a, c) == [a] && Parts(a + [c] + rest, c) == [a] + Parts(rest, c)
  {
    UntilFirst(a, c, rest);
    var s := a + [c] + rest;
    assert s[..|a|] == a && s[|a| + 1..] == rest;
  }

  lemma {:induction false} UntilMisses(s: string, c: char)
    ensures c !in s[..Until(s, c)]
  {
    if s != "" && s[0] != c {
      UntilMisses(s[1..], c);
      assert s[..Until(s, c)] == [s[0]] + s[1..][..Until(s[1..], c)];
    }
  }

  /** The parts with the separator between them. */
  function Glued(parts: seq<string>, c: char): string {
    if parts == [] then "" else if |parts| == 1 then parts[0] else parts[0] + [c] + Glued(parts[1..], c)
  }

  /** The parts are what stands between the separators: they contain none, and put together give the text. */
  lemma {:induction false} PartsMeaning(s: string, c: char)
    ensures Parts(s, c) != [] && Glued(Parts(s, c), c) == s
    ensures forall i :: 0 <= i < |Parts(s, c)| ==> c !in Parts(s, c)[i]
    decreases |s|
  {
    var n := Until(s, c);
    UntilMisses(s, c);
    if n == |s| {
      assert s[..n] == s;
    } else {
      PartsMeaning(s[n + 1..], c);
      assert s == s[..n] + [c] + s[n + 1..];
      assert Parts(s, c)[1..] == Parts(s[n + 1..], c);
    }
  }

  /** Conversely, any parts without separators come back. */
  lemma {:induction false} PartsOfGlued(parts: seq<string>, c: char)
    requires parts != [] && forall i :: 0 <= i < |parts| ==> c !in parts[i]
    ensures Parts(Glued(parts, c), c) == parts
  {
    if |parts| == 1 {
      PartsCons(parts[0], c, "");
    } else {
      PartsOfGlued(parts[1..], c);
      PartsCons(parts[0], c, Glued(parts[1..], c));
      assert parts == [parts[0]] + parts[1..];
    }
  }
}
