/** The wildcard matcher of the configuration crawler (`matches_glob`, src/discovery/crawler.rs):
    one backtrack point, at the last star. A character stands for one byte. */
module Glob {

  // ----- what a pattern means

  /** `?` stands for any one character, `*` for any text, everything else for itself. */
  ghost predicate Matches(p: string, t: string)
    decreases |p| + |t|
  {
    if p == "" then t == ""
    else if p[0] == '*' then Matches(p[1..], t) || (t != "" && Matches(p, t[1..]))
    else t != "" && (p[0] == '?' || p[0] == t[0]) && Matches(p[1..], t[1..])
  }

  // ----- the algorithm

  datatype Star = NoStar | StarAt(index: nat)

  /** The state of the scanning loop: pattern and text positions, the last star and where its text ends. */
  datatype Scan = Scan(pIdx: nat, tIdx: nat, star: Star, matchIdx: nat)

  datatype Verdict = Continue(next: Scan) | Fail

  ghost predicate InBounds(p: string, t: string, s: Scan) {
    && s.pIdx <= |p| && s.matchIdx <= s.tIdx <= |t|
    && (s.star.StarAt? ==> s.star.index < s.pIdx)
  }

  /** One iteration; a literal match is tried before a star. */
  function Step(p: string, t: string, s: Scan): Verdict
    requires InBounds(p, t, s) && s.tIdx < |t|
  {
    if s.pIdx < |p| && (p[s.pIdx] == '?' || p[s.pIdx] == t[s.tIdx]) then
      Continue(s.(pIdx := s.pIdx + 1, tIdx := s.tIdx + 1))
    else if s.pIdx < |p| && p[s.pIdx] == '*' then
      Continue(Scan(s.pIdx + 1, s.tIdx, StarAt(s.pIdx), s.tIdx))
    else if s.star.StarAt? then
      Continue(Scan(s.star.index + 1, s.matchIdx + 1, s.star, s.matchIdx + 1))
    else Fail
  }

  function TrailingStars(p: string, from: nat): nat
    requires from <= |p|
    ensures from <= TrailingStars(p, from) <= |p|
    decreases |p| - from
  {
    if from < |p| && p[from] == '*' then TrailingStars(p, from + 1) else from
  }

  /** The scan from a given state to its end; the measure shows that backtracking terminates. */
  function Finish(p: string, t: string, s: Scan): bool
    requires InBounds(p, t, s)
    decreases |t| - s.matchIdx, |t| - s.tIdx, |p| - s.pIdx
  {
    if s.tIdx < |t| then
      match Step(p, t, s)
      case Continue(next) => Finish(p, t, next)
      case Fail => false
    else TrailingStars(p, s.pIdx) == |p|
  }

  function MatchesGlob(p: string, t: string): bool {
    Finish(p, t, Scan(0, 0, NoStar, 0))
  }

  /** The loop of the source. */
  method MatchGlob(pattern: string, text: string) returns (r: bool)
    ensures r == MatchesGlob(pattern, text)
  {
    var pIdx: nat, tIdx: nat := 0, 0;
    var star := NoStar;
    var matchIdx: nat := 0;
    while tIdx < |text|
      invariant InBounds(pattern, text, Scan(pIdx, tIdx, star, matchIdx))
      invariant Finish(pattern, text, Scan(pIdx, tIdx, star, matchIdx)) == MatchesGlob(pattern, text)
      decreases |text| - matchIdx, |text| - tIdx, |pattern| - pIdx
    {
      if pIdx < |pattern| && (pattern[pIdx] == '?' || pattern[pIdx] == text[tIdx]) {
        pIdx := pIdx + 1;
        tIdx := tIdx + 1;
      } else if pIdx < |pattern| && pattern[pIdx] == '*' {
        star := StarAt(pIdx);
        matchIdx := tIdx;
        pIdx := pIdx + 1;
      } else if star.StarAt? {
        pIdx := star.index + 1;
        matchIdx := matchIdx + 1;
        tIdx := matchIdx;
      } else {
        return false;
      }
    }
    ghost var at := pIdx;
    while pIdx < |pattern| && pattern[pIdx] == '*'
      invariant pIdx <= |pattern| && TrailingStars(pattern, pIdx) == TrailingStars(pattern, at)
    {
      pIdx := pIdx + 1;
    }
    r := pIdx == |pattern|;
  }

  // ----- soundness, for every text

  /** A star absorbs any text. */
  lemma {:induction false} StarAbsorbs(p: string, t: string, i: nat, j: nat)
    requires i <= j <= |t| && p != "" && p[0] == '*' && Matches(p, t[j..])
    ensures Matches(p, t[i..])
    decreases j - i
  {
    if i < j {
      StarAbsorbs(p, t, i + 1, j);
      assert t[i..][1..] == t[i + 1..];
    }
  }

  lemma {:induction false} OnlyStarsMatchEmpty(p: string, from: nat)
    requires from <= |p|
    ensures TrailingStars(p, from) == |p| <==> Matches(p[from..], "")
    decreases |p| - from
  {
    if from < |p| {
      assert p[from..][1..] == p[from + 1..];
      if p[from] == '*' {
        OnlyStarsMatchEmpty(p, from + 1);
      }
    }
  }

  ghost predicate Grounded(p: string, t: string, s: Scan) {
    && InBounds(p, t, s)
    && (s.star.StarAt? ==> p[s.star.index] == '*')
  }

  /** If a later state promises a match of the whole, so does the state before it. */
  ghost predicate Promises(p: string, t: string, s: Scan)
    requires InBounds(p, t, s)
  {
    && (Matches(p[s.pIdx..], t[s.tIdx..]) ==> Matches(p, t))
    && (s.star.StarAt? && Matches(p[s.star.index..], t[s.matchIdx..]) ==> Matches(p, t))
  }

  lemma LiteralSound(p: string, i: nat, t: string, j: nat)
    requires i < |p| && j < |t| && (p[i] == '?' || p[i] == t[j])
    requires Matches(p[i + 1..], t[j + 1..])
    ensures Matches(p[i..], t[j..])
  {
    assert p[i..][1..] == p[i + 1..] && t[j..][1..] == t[j + 1..];
    if p[i] == '*' {
      assert Matches(p[i..], t[j + 1..]);
    }
  }

  lemma StepSound(p: string, t: string, s: Scan)
    requires Grounded(p, t, s) && s.tIdx < |t| && Promises(p, t, s) && Step(p, t, s).Continue?
    ensures var n := Step(p, t, s).next; Grounded(p, t, n) && Promises(p, t, n)
  {
    if s.pIdx < |p| && (p[s.pIdx] == '?' || p[s.pIdx] == t[s.tIdx]) {
      if Matches(p[s.pIdx + 1..], t[s.tIdx + 1..]) {
        LiteralSound(p, s.pIdx, t, s.tIdx);
      }
    } else if s.pIdx < |p| && p[s.pIdx] == '*' {
      assert p[s.pIdx..][1..] == p[s.pIdx + 1..];
    } else {
      var k := s.star.index;
      assert p[k..][1..] == p[k + 1..] && t[s.matchIdx..][1..] == t[s.matchIdx + 1..];
      if Matches(p[k + 1..], t[s.matchIdx + 1..]) {
        assert Matches(p[k..], t[s.matchIdx + 1..]);
      }
    }
  }

  lemma {:induction false} FinishSound(p: string, t: string, s: Scan)
    requires Grounded(p, t, s) && Promises(p, t, s) && Finish(p, t, s)
    ensures Matches(p, t)
    decreases |t| - s.matchIdx, |t| - s.tIdx, |p| - s.pIdx
  {
    if s.tIdx < |t| {
      StepSound(p, t, s);
      FinishSound(p, t, Step(p, t, s).next);
    } else {
      OnlyStarsMatchEmpty(p, s.pIdx);
      assert t[s.tIdx..] == "";
    }
  }

  /** The matcher accepts only what the pattern means, for every text. */
  lemma Sound(p: string, t: string)
    requires MatchesGlob(p, t)
    ensures Matches(p, t)
  {
    assert p[0..] == p && t[0..] == t;
    FinishSound(p, t, Scan(0, 0, NoStar, 0));
  }

  // ----- completeness, for texts without a star

  /** A stretch of pattern without stars matches a text of its own length, character by character. */
  ghost predicate Literal(p: string, from: nat, to: nat, t: string, at: nat) {
    && from <= to <= |p| && at + (to - from) <= |t|
    && forall k :: from <= k < to ==> One(p[k], t[at + k - from])
  }

  ghost predicate One(pc: char, tc: char) {
    pc != '*' && (pc == '?' || pc == tc)
  }

  /** Such a stretch can be cut off the front. */
  lemma {:induction false} CutLiteral(p: string, from: nat, to: nat, t: string, at: nat)
    requires from <= to <= |p| && at <= |t| && Matches(p[from..], t[at..])
    requires forall k :: from <= k < to ==> p[k] != '*'
    ensures Literal(p, from, to, t, at) && Matches(p[to..], t[at + (to - from)..])
    decreases |p| - from
  {
    if from < to {
      assert p[from..][1..] == p[from + 1..] && t[at..][1..] == t[at + 1..];
      CutLiteral(p, from + 1, to, t, at + 1);
    }
  }

  /** Where a star's match begins. */
  lemma {:induction false} StarSplit(p: string, t: string, i: nat) returns (j: nat)
    requires i <= |t| && p != "" && p[0] == '*' && Matches(p, t[i..])
    ensures i <= j <= |t| && Matches(p[1..], t[j..])
    decreases |t| - i
  {
    if Matches(p[1..], t[i..]) {
      j := i;
    } else {
      assert t[i..][1..] == t[i + 1..];
      j := StarSplit(p, t, i + 1);
    }
  }

  /** The invariant of completeness: everything since the last star matched literally, and the whole
      matches only if the rest does from the last star (or from here, before any star). */
  ghost predicate Tracks(p: string, t: string, s: Scan) {
    && Grounded(p, t, s)
    && (match s.star
        case NoStar =>
          s.matchIdx == 0 && Literal(p, 0, s.pIdx, t, 0) && s.tIdx == s.pIdx
          && (Matches(p, t) ==> Matches(p[s.pIdx..], t[s.tIdx..]))
        case StarAt(k) =>
          Literal(p, k + 1, s.pIdx, t, s.matchIdx) && s.tIdx == s.matchIdx + (s.pIdx - (k + 1))
          && (Matches(p, t) ==> Matches(p[k..], t[s.matchIdx..])))
  }

  predicate CharFits(p: string, i: nat, c: char) {
    i < |p| && (p[i] == '?' || p[i] == c)
  }

  lemma TracksLiteral(p: string, t: string, s: Scan)
    requires Tracks(p, t, s) && s.tIdx < |t| && t[s.tIdx] != '*' && CharFits(p, s.pIdx, t[s.tIdx])
    ensures Tracks(p, t, s.(pIdx := s.pIdx + 1, tIdx := s.tIdx + 1))
  {
    assert p[s.pIdx..][1..] == p[s.pIdx + 1..] && t[s.tIdx..][1..] == t[s.tIdx + 1..];
  }

  /** What matched from an earlier star still matches from the next one. */
  lemma LaterStar(p: string, t: string, k: nat, at: nat, i: nat)
    requires k < i < |p| && p[k] == '*' && p[i] == '*' && at + (i - (k + 1)) <= |t|
    requires forall m :: k < m < i ==> p[m] != '*'
    requires Matches(p[k..], t[at..])
    ensures Matches(p[i..], t[at + (i - (k + 1))..])
  {
    var j := StarSplit(p[k..], t, at);
    assert p[k..][1..] == p[k + 1..];
    CutLiteral(p, k + 1, i, t, j);
    StarAbsorbs(p[i..], t, at + (i - (k + 1)), j + (i - (k + 1)));
  }

  lemma TracksNewStar(p: string, t: string, s: Scan)
    requires Tracks(p, t, s) && s.tIdx < |t| && s.pIdx < |p| && p[s.pIdx] == '*'
    ensures Tracks(p, t, Scan(s.pIdx + 1, s.tIdx, StarAt(s.pIdx), s.tIdx))
  {
    if Matches(p, t) && s.star.StarAt? {
      LaterStar(p, t, s.star.index, s.matchIdx, s.pIdx);
    }
  }

  /** Where neither the character fits nor a star stands, nothing matches. */
  lemma StuckMatchesNothing(p: string, i: nat, t: string, j: nat)
    requires i <= |p| && j < |t| && !CharFits(p, i, t[j]) && (i < |p| ==> p[i] != '*')
    ensures !Matches(p[i..], t[j..])
  {
  }

  lemma TracksBacktrack(p: string, t: string, s: Scan)
    requires Tracks(p, t, s) && s.tIdx < |t| && s.star.StarAt?
    requires !CharFits(p, s.pIdx, t[s.tIdx]) && (s.pIdx < |p| ==> p[s.pIdx] != '*')
    ensures Tracks(p, t, Scan(s.star.index + 1, s.matchIdx + 1, s.star, s.matchIdx + 1))
  {
    var k := s.star.index;
    assert p[k..][1..] == p[k + 1..] && t[s.matchIdx..][1..] == t[s.matchIdx + 1..];
    StuckMatchesNothing(p, s.pIdx, t, s.tIdx);
    if Matches(p[k + 1..], t[s.matchIdx..]) {
      CutLiteral(p, k + 1, s.pIdx, t, s.matchIdx);
    }
  }

  lemma TracksNeverFails(p: string, t: string, s: Scan)
    requires Tracks(p, t, s) && s.tIdx < |t| && Matches(p, t)
    ensures CharFits(p, s.pIdx, t[s.tIdx]) || (s.pIdx < |p| && p[s.pIdx] == '*') || s.star.StarAt?
  {
    if !CharFits(p, s.pIdx, t[s.tIdx]) && (s.pIdx < |p| ==> p[s.pIdx] != '*') {
      StuckMatchesNothing(p, s.pIdx, t, s.tIdx);
    }
  }

  lemma TracksStep(p: string, t: string, s: Scan) returns (n: Scan)
    requires Tracks(p, t, s) && s.tIdx < |t| && t[s.tIdx] != '*' && Matches(p, t)
    ensures Step(p, t, s) == Continue(n) && Tracks(p, t, n)
  {
    TracksNeverFails(p, t, s);
    if CharFits(p, s.pIdx, t[s.tIdx]) {
      TracksLiteral(p, t, s);
      n := s.(pIdx := s.pIdx + 1, tIdx := s.tIdx + 1);
    } else if s.pIdx < |p| && p[s.pIdx] == '*' {
      TracksNewStar(p, t, s);
      n := Scan(s.pIdx + 1, s.tIdx, StarAt(s.pIdx), s.tIdx);
    } else {
      TracksBacktrack(p, t, s);
      n := Scan(s.star.index + 1, s.matchIdx + 1, s.star, s.matchIdx + 1);
    }
  }

  lemma TracksEnd(p: string, t: string, s: Scan)
    requires Tracks(p, t, s) && s.tIdx == |t| && Matches(p, t)
    ensures TrailingStars(p, s.pIdx) == |p|
  {
    if s.star.StarAt? {
      var k := s.star.index;
      var j := StarSplit(p[k..], t, s.matchIdx);
      assert p[k..][1..] == p[k + 1..];
      CutLiteral(p, k + 1, s.pIdx, t, j);
    }
    assert t[s.tIdx..] == "";
    OnlyStarsMatchEmpty(p, s.pIdx);
  }

  lemma {:induction false} FinishComplete(p: string, t: string, s: Scan)
    requires Tracks(p, t, s) && '*' !in t && Matches(p, t)
    ensures Finish(p, t, s)
    decreases |t| - s.matchIdx, |t| - s.tIdx, |p| - s.pIdx
  {
    if s.tIdx < |t| {
      var n := TracksStep(p, t, s);
      FinishComplete(p, t, n);
    } else {
      TracksEnd(p, t, s);
    }
  }

  /** The matcher accepts everything the pattern means, for texts without a star. */
  lemma Complete(p: string, t: string)
    requires Matches(p, t) && '*' !in t
    ensures MatchesGlob(p, t)
  {
    assert p[0..] == p && t[0..] == t;
    FinishComplete(p, t, Scan(0, 0, NoStar, 0));
  }

  // ----- and for no others

  /** What matches still matches behind a text that the pattern spells out. */
  lemma {:induction false} PrefixMatches(u: string, p: string, t: string)
    requires Matches(p, t)
    ensures Matches(u + p, u + t)
  {
    if u == "" {
      assert u + p == p && u + t == t;
    } else {
      assert (u + p)[1..] == u[1..] + p && (u + t)[1..] == u[1..] + t;
      PrefixMatches(u[1..], p, t);
      if u[0] == '*' {
        assert Matches(u + p, (u + t)[1..]);
      }
    }
  }

  lemma MatchesSelf(v: string)
    ensures Matches(v, v)
  {
    PrefixMatches(v, "", "");
    assert v + "" == v;
  }

  ghost function Questions(n: nat): string {
    if n == 0 then "" else "?" + Questions(n - 1)
  }

  lemma {:induction false} QuestionsMatch(n: nat, q: string, t: string)
    requires n <= |t| && Matches(q, t[n..])
    ensures Matches(Questions(n) + q, t)
    ensures |Questions(n)| == n && forall i :: 0 <= i < n ==> Questions(n)[i] == '?'
  {
    if n > 0 {
      assert t[1..][n - 1..] == t[n..];
      QuestionsMatch(n - 1, q, t[1..]);
      assert (Questions(n) + q)[1..] == Questions(n - 1) + q;
    } else {
      assert Questions(0) + q == q && t[0..] == t;
    }
  }

  /** Without a star to fall back on, and none ahead, unequal lengths fail. */
  lemma {:induction false} LengthMismatchFails(p: string, t: string, i: nat, j: nat)
    requires i <= |p| && j <= |t| && |p| - i != |t| - j
    requires forall k :: i <= k < |p| ==> p[k] != '*'
    ensures !Finish(p, t, Scan(i, j, NoStar, 0))
    decreases |t| - j
  {
    if j < |t| && i < |p| {
      LengthMismatchFails(p, t, i + 1, j + 1);
    }
  }

  lemma {:induction false} LiteralStretch(p: string, t: string, i: nat, n: nat)
    requires i <= n <= |p| && n <= |t| && forall k :: i <= k < n ==> p[k] == '?' || p[k] == t[k]
    ensures Finish(p, t, Scan(i, i, NoStar, 0)) == Finish(p, t, Scan(n, n, NoStar, 0))
    decreases n - i
  {
    if i < n {
      LiteralStretch(p, t, i + 1, n);
    }
  }

  lemma StarQuestion(v: string)
    ensures Matches("*?" + v, "*" + v)
  {
    assert ("*?" + v)[1..] == "?" + v && ("?" + v)[1..] == v && ("*" + v)[1..] == v;
    MatchesSelf(v);
  }

  lemma LastStar(t: string) returns (i: nat)
    requires '*' in t
    ensures i < |t| && t[i] == '*' && '*' !in t[i + 1..]
  {
    i := |t| - 1;
    while t[i] != '*'
      invariant i < |t| && '*' !in t[i + 1..] && '*' in t[..i + 1]
      decreases i
    {
      assert t[..i + 1] == t[..i] + [t[i]];
      assert t[i..] == [t[i]] + t[i + 1..];
      i := i - 1;
    }
  }

  /** Every text with a star has a pattern that the matcher wrongly rejects: the star of the pattern is
      spent on the star of the text. */
  lemma StarInTextBreaks(t: string) returns (p: string)
    requires '*' in t
    ensures Matches(p, t) && !MatchesGlob(p, t)
  {
    var i := LastStar(t);
    var v := t[i + 1..];
    var q := "*?" + v;
    p := Questions(i) + q;
    assert t[i..] == "*" + v;
    StarQuestion(v);
    QuestionsMatch(i, q, t);
    assert p[i] == q[0] && forall k :: i + 1 <= k < |p| ==> p[k] == q[k - i];
    LiteralStretch(p, t, 0, i + 1);
    LengthMismatchFails(p, t, i + 1, i + 1);
  }

  /** The matcher decides a text rightly for all patterns exactly when the text has no star. */
  lemma ExactlyStarFreeTexts(t: string)
    ensures (forall p :: MatchesGlob(p, t) <==> Matches(p, t)) <==> '*' !in t
  {
    if '*' in t {
      var p := StarInTextBreaks(t);
    } else {
      forall p ensures MatchesGlob(p, t) <==> Matches(p, t) {
        if MatchesGlob(p, t) { Sound(p, t); }
        if Matches(p, t) { Complete(p, t); }
      }
    }
  }

  lemma StarTwo(c: char, v: string)
    ensures Matches("*" + v, ['*', c] + v)
  {
    var p, t := "*" + v, ['*', c] + v;
    assert p[1..] == v && t[2..] == v && t[0..] == t;
    MatchesSelf(v);
    assert Matches(p, t[2..]);
    StarAbsorbs(p, t, 0, 2);
  }

  /** Every pattern with a star wrongly rejects a text that spells the pattern out, stars included, with one
      character more behind its last star. */
  lemma StarInPatternBreaks(p: string) returns (t: string)
    requires '*' in p
    ensures Matches(p, t) && !MatchesGlob(p, t)
  {
    var i := LastStar(p);
    var u, v := p[..i], p[i + 1..];
    t := u + (['*', 'a'] + v);
    assert p == u + ("*" + v);
    StarTwo('a', v);
    PrefixMatches(u, "*" + v, ['*', 'a'] + v);
    assert t[i] == '*' && forall k :: 0 <= k < i ==> t[k] == u[k] == p[k];
    assert forall k :: i + 1 <= k < |p| ==> p[k] == v[k - (i + 1)];
    LiteralStretch(p, t, 0, i + 1);
    LengthMismatchFails(p, t, i + 1, i + 1);
  }

  /** Without a star, a pattern matches texts of its own length, character by character. */
  lemma {:induction false} StarFreePattern(p: string, t: string)
    requires '*' !in p && Matches(p, t)
    ensures |t| == |p| && forall k :: 0 <= k < |p| ==> p[k] == '?' || p[k] == t[k]
  {
    if p != "" {
      assert p[0] in p && forall c :: c in p[1..] ==> c in p;
      StarFreePattern(p[1..], t[1..]);
      forall k | 0 <= k < |p| ensures p[k] == '?' || p[k] == t[k] {
        if k > 0 {
          assert p[1..][k - 1] == p[k] && t[1..][k - 1] == t[k];
        }
      }
    }
  }

  /** The dual: the matcher decides all texts rightly for a pattern exactly when the pattern has no star. */
  lemma ExactlyStarFreePatterns(p: string)
    ensures (forall t :: MatchesGlob(p, t) <==> Matches(p, t)) <==> '*' !in p
  {
    if '*' in p {
      var t := StarInPatternBreaks(p);
    } else {
      forall t ensures MatchesGlob(p, t) <==> Matches(p, t) {
        if MatchesGlob(p, t) {
          Sound(p, t);
        }
        if Matches(p, t) {
          StarFreePattern(p, t);
          LiteralStretch(p, t, 0, |p|);
        }
      }
    }
  }
}
