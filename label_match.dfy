/** The four regular expressions of the reply parser's fallback path all have
    the shape `/label[:\s]+(capture)/i`, used with `String.prototype.match`
    (no `g` flag): the first match wins. This module defines that shape, a
    matcher that follows the backtracking order of JavaScript's regular
    expression engine, and a declarative description of which match it finds:
    the one starting leftmost, and among those the one whose capture starts
    latest and then ends latest (greedy `+` loops). */
module LabelMatch {
  import opened Wrappers
  import opened Text

  /** The capturing group of a pattern. */
  datatype Capture =
    | OneOf(words: seq<string>)   // (w1|w2|...), compared ignoring case
    | NoneOf(stops: set<char>)    // [^stops]+
    | Decimal                     // \d+(?:\.\d+)?

  /** `/key[:\s]+(capture)/i`: a field name, separators, the capture. */
  datatype Pattern = Pattern(key: string, capture: Capture)

  /** A match: where the label starts, and where the capture starts and ends. */
  datatype Match = Match(start: nat, capStart: nat, capEnd: nat)

  /** What `[:\s]` matches. */
  predicate IsSeparator(c: char) {
    c == ':' || IsSpace(c)
  }

  function NotIn(stops: set<char>): char -> bool {
    c => c !in stops
  }

  // ----- Declarative description -----

  /** `w` occurs at `q` in `s`, ignoring case. */
  ghost predicate FoldsTo(s: string, w: string, q: int) {
    0 <= q && q + |w| <= |s| && forall j :: 0 <= j < |w| ==> SameIgnoringCase(s[q + j], w[j])
  }

  /** `\d+(?:\.\d+)?` matches `s[q..e]`, with the integer digits ending at `d`. */
  ghost predicate DecimalSplit(s: string, q: int, d: int, e: int) {
    && 0 <= q < d <= e <= |s|
    && (forall j :: q <= j < d ==> IsDigit(s[j]))
    && (d == e || (d + 1 < e && s[d] == '.' && forall j :: d + 1 <= j < e ==> IsDigit(s[j])))
  }

  /** The capturing group can match exactly `s[q..e]`. */
  ghost predicate Captures(s: string, cap: Capture, q: int, e: int) {
    && 0 <= q <= e <= |s|
    && match cap
       case OneOf(words) => exists w :: w in words && e == q + |w| && FoldsTo(s, w, q)
       case NoneOf(stops) => q < e && forall j :: q <= j < e ==> s[j] !in stops
       case Decimal => exists d :: DecimalSplit(s, q, d, e)
  }

  /** The whole pattern can match with these positions. */
  ghost predicate IsMatch(s: string, pat: Pattern, m: Match) {
    && m.start + |pat.key| < m.capStart <= |s|
    && FoldsTo(s, pat.key, m.start)
    && (forall j :: m.start + |pat.key| <= j < m.capStart ==> IsSeparator(s[j]))
    && Captures(s, pat.capture, m.capStart, m.capEnd)
  }

  /** `m` comes no later than `m2` in the order in which the engine tries
      matches: leftmost start first, then the longest separator run, then the
      longest capture. */
  ghost predicate Preferred(m: Match, m2: Match) {
    || m.start < m2.start
    || (m.start == m2.start && m.capStart > m2.capStart)
    || (m.start == m2.start && m.capStart == m2.capStart && m.capEnd >= m2.capEnd)
  }

  /** `a` is a prefix of `b` ignoring case. */
  ghost predicate FoldPrefix(a: string, b: string) {
    |a| <= |b| && forall k :: 0 <= k < |a| ==> Upper(a[k]) == Upper(b[k])
  }

  /** No alternative of a `OneOf` is, ignoring case, a prefix of another, so
      at most one of them matches at any position. The patterns of the
      parser satisfy this. */
  ghost predicate WellFormed(pat: Pattern) {
    pat.capture.OneOf? ==>
      var ws := pat.capture.words;
      forall i, j :: 0 <= i < |ws| && 0 <= j < |ws| && i != j ==> !FoldPrefix(ws[i], ws[j])
  }

  // ----- The matcher -----

  /** Characters `k..` of `w` occur at `q + k..` in `s`, ignoring case. */
  predicate FoldsFrom(s: string, w: string, q: nat, k: nat)
    decreases |w| - k
  {
    if k >= |w| then q + |w| <= |s|
    else if q + k >= |s| then false
    else if !SameIgnoringCase(s[q + k], w[k]) then false
    else FoldsFrom(s, w, q, k + 1)
  }

  /** The first alternative that matches at `q`, by its end position. */
  function FirstWord(s: string, words: seq<string>, q: nat): Option<nat> {
    if words == [] then None
    else if FoldsFrom(s, words[0], q, 0) then Some(q + |words[0]|)
    else FirstWord(s, words[1..], q)
  }

  /** Where the capturing group ends when it is tried at `q`: the first
      success in the engine's order (greedy loops, alternatives left to right). */
  function CaptureEnd(s: string, cap: Capture, q: nat): Option<nat>
    requires q <= |s|
  {
    match cap
    case OneOf(words) => FirstWord(s, words, q)
    case NoneOf(stops) =>
      var n := Run(s, q, NotIn(stops));
      if n == 0 then None else Some(q + n)
    case Decimal =>
      var d := Run(s, q, IsDigit);
      if d == 0 then None
      else if q + d < |s| && s[q + d] == '.' && Run(s, q + d + 1, IsDigit) > 0 then
        Some(q + d + 1 + Run(s, q + d + 1, IsDigit))
      else Some(q + d)
  }

  /** A greedy loop backtracking: having taken `k` steps past `from`, it
      tries the rest of the pattern, `f`, at `from + k`, and gives one step
      back each time `f` fails; the position and what `f` found there. */
  function LastHit(f: nat -> Option<nat>, from: nat, k: nat): Option<(nat, nat)> {
    if k == 0 then None
    else match f(from + k)
      case Some(e) => Some((from + k, e))
      case None => LastHit(f, from, k - 1)
  }

  /** The capturing group tried at each position of `s`. */
  function CaptureAt(s: string, cap: Capture): nat -> Option<nat> {
    (q: nat) => if q <= |s| then CaptureEnd(s, cap, q) else None
  }

  /** The separator loop `[:\s]+` backtracking: it first takes `k` separators
      after `from`, and gives one back each time the capture fails after it. */
  function TrySeparators(s: string, cap: Capture, from: nat, k: nat): Option<(nat, nat)>
    requires from + k <= |s|
  {
    LastHit(CaptureAt(s, cap), from, k)
  }

  /** The attempt the engine makes at position `p`. */
  function MatchAt(s: string, pat: Pattern, p: nat): Option<Match>
    requires p <= |s|
  {
    if p + |pat.key| > |s| || !FoldsFrom(s, pat.key, p, 0) then None
    else
      var from := p + |pat.key|;
      match TrySeparators(s, pat.capture, from, Run(s, from, IsSeparator))
      case Some((c, e)) => Some(Match(p, c, e))
      case None => None
  }

  /** Attempts at `p`, `p + 1`, ... up to the end of the subject. */
  function FindFrom(s: string, pat: Pattern, p: nat): Option<Match>
    decreases |s| + 1 - p
  {
    if p > |s| then None
    else match MatchAt(s, pat, p)
      case Some(m) => Some(m)
      case None => FindFrom(s, pat, p + 1)
  }

  /** `s.match(pattern)` without the `g` flag. */
  function Find(s: string, pat: Pattern): Option<Match> {
    FindFrom(s, pat, 0)
  }

  // ----- The matcher finds the preferred match -----

  lemma {:induction false} FoldsFromMeans(s: string, w: string, q: nat, k: nat)
    requires k <= |w|
    ensures FoldsFrom(s, w, q, k) <==>
              q + |w| <= |s| && forall j :: k <= j < |w| ==> SameIgnoringCase(s[q + j], w[j])
    decreases |w| - k
  {
    if k < |w| {
      FoldsFromMeans(s, w, q, k + 1);
    }
  }

  lemma {:induction false} FirstWordCorrect(s: string, words: seq<string>, q: nat)
    ensures FirstWord(s, words, q).Some? ==>
              exists i :: 0 <= i < |words| && FoldsTo(s, words[i], q)
                          && FirstWord(s, words, q).value == q + |words[i]|
    ensures FirstWord(s, words, q).None? ==> forall w :: w in words ==> !FoldsTo(s, w, q)
  {
    if words != [] {
      FoldsFromMeans(s, words[0], q, 0);
      FirstWordCorrect(s, words[1..], q);
      if !FoldsFrom(s, words[0], q, 0) && FirstWord(s, words[1..], q).Some? {
        var i :| 0 <= i < |words[1..]| && FoldsTo(s, words[1..][i], q)
                 && FirstWord(s, words[1..], q).value == q + |words[1..][i]|;
        assert words[i + 1] == words[1..][i];
      }
      if FirstWord(s, words, q).None? {
        forall w | w in words ensures !FoldsTo(s, w, q) {
          if w != words[0] {
            assert w in words[1..];
          }
        }
      }
    }
  }

  /** Two words that both occur at `q` ignoring case: the shorter is a prefix
      of the longer ignoring case. */
  lemma FoldsToShared(s: string, a: string, b: string, q: nat)
    requires FoldsTo(s, a, q) && FoldsTo(s, b, q) && |a| <= |b|
    ensures FoldPrefix(a, b)
  {
    forall k | 0 <= k < |a| ensures Upper(a[k]) == Upper(b[k]) {
      assert SameIgnoringCase(s[q + k], a[k]) && SameIgnoringCase(s[q + k], b[k]);
    }
  }

  lemma WordsCaptureCorrect(s: string, pat: Pattern, q: nat)
    requires pat.capture.OneOf? && WellFormed(pat) && q <= |s|
    ensures var r := CaptureEnd(s, pat.capture, q);
            && (r.Some? ==> Captures(s, pat.capture, q, r.value)
                            && forall e :: Captures(s, pat.capture, q, e) ==> e == r.value)
            && (r.None? ==> forall e :: !Captures(s, pat.capture, q, e))
  {
    var ws := pat.capture.words;
    FirstWordCorrect(s, ws, q);
    if FirstWord(s, ws, q).Some? {
      var i :| 0 <= i < |ws| && FoldsTo(s, ws[i], q) && FirstWord(s, ws, q).value == q + |ws[i]|;
      assert Captures(s, pat.capture, q, q + |ws[i]|);
      forall e | Captures(s, pat.capture, q, e) ensures e == q + |ws[i]| {
        var w :| w in ws && e == q + |w| && FoldsTo(s, w, q);
        var j :| 0 <= j < |ws| && ws[j] == w;
        if j != i {
          if |ws[i]| <= |w| {
            FoldsToShared(s, ws[i], w, q);
          } else {
            FoldsToShared(s, w, ws[i], q);
          }
          assert false;
        }
      }
    }
  }

  /** What the engine takes for `\d+(?:\.\d+)?` is a decimal numeral. */
  lemma DecimalCaptureFound(s: string, q: nat)
    requires q <= |s|
    ensures var r := CaptureEnd(s, Decimal, q);
            r.Some? ==> Captures(s, Decimal, q, r.value)
  {
    var d := Run(s, q, IsDigit);
    if d > 0 {
      if q + d < |s| && s[q + d] == '.' && Run(s, q + d + 1, IsDigit) > 0 {
        var f := Run(s, q + d + 1, IsDigit);
        assert DecimalSplit(s, q, q + d, q + d + 1 + f);
      } else {
        assert DecimalSplit(s, q, q + d, q + d);
      }
    }
  }

  /** Every decimal numeral at `q` ends no later than what the engine takes. */
  lemma DecimalCaptureLongest(s: string, q: nat, e: int)
    requires Captures(s, Decimal, q, e)
    ensures var r := CaptureEnd(s, Decimal, q);
            r.Some? && e <= r.value
  {
    var d' :| DecimalSplit(s, q, d', e);
    RunIsLongest(s, q, IsDigit, d');
    if d' < e {
      RunStopsBefore(s, q, IsDigit, d');
      RunIsLongest(s, d' + 1, IsDigit, e);
    }
  }

  lemma DecimalCaptureCorrect(s: string, q: nat)
    requires q <= |s|
    ensures var r := CaptureEnd(s, Decimal, q);
            && (r.Some? ==> Captures(s, Decimal, q, r.value)
                            && forall e :: Captures(s, Decimal, q, e) ==> e <= r.value)
            && (r.None? ==> forall e :: !Captures(s, Decimal, q, e))
  {
    DecimalCaptureFound(s, q);
    forall e | Captures(s, Decimal, q, e) ensures CaptureEnd(s, Decimal, q).Some? && e <= CaptureEnd(s, Decimal, q).value {
      DecimalCaptureLongest(s, q, e);
    }
  }

  lemma NoneOfCaptureCorrect(s: string, stops: set<char>, q: nat)
    requires q <= |s|
    ensures var r := CaptureEnd(s, NoneOf(stops), q);
            && (r.Some? ==> Captures(s, NoneOf(stops), q, r.value)
                            && forall e :: Captures(s, NoneOf(stops), q, e) ==> e <= r.value)
            && (r.None? ==> forall e :: !Captures(s, NoneOf(stops), q, e))
  {
    forall e | Captures(s, NoneOf(stops), q, e) ensures q < e <= q + Run(s, q, NotIn(stops)) {
      RunIsLongest(s, q, NotIn(stops), e);
    }
  }

  /** The capture the engine takes at `q` is the longest the group can match
      there, and it takes none exactly when the group cannot match there. */
  lemma CaptureEndCorrect(s: string, pat: Pattern, q: nat)
    requires WellFormed(pat) && q <= |s|
    ensures var r := CaptureEnd(s, pat.capture, q);
            && (r.Some? ==> Captures(s, pat.capture, q, r.value)
                            && forall e :: Captures(s, pat.capture, q, e) ==> e <= r.value)
            && (r.None? ==> forall e :: !Captures(s, pat.capture, q, e))
  {
    match pat.capture
    case OneOf(_) => WordsCaptureCorrect(s, pat, q);
    case NoneOf(stops) => NoneOfCaptureCorrect(s, stops, q);
    case Decimal => DecimalCaptureCorrect(s, q);
  }

  /** The loop stops at the last step after which `f` succeeds. */
  lemma {:induction false} LastHitCorrect(f: nat -> Option<nat>, from: nat, k: nat)
    ensures var r := LastHit(f, from, k);
            && (r.Some? ==>
                  && from < r.value.0 <= from + k
                  && f(r.value.0) == Some(r.value.1)
                  && forall c :: r.value.0 < c <= from + k ==> f(c).None?)
            && (r.None? ==> forall c :: from < c <= from + k ==> f(c).None?)
  {
    if k > 0 && f(from + k).None? {
      LastHitCorrect(f, from, k - 1);
    }
  }

  lemma TrySeparatorsCorrect(s: string, cap: Capture, from: nat, k: nat)
    requires from + k <= |s|
    ensures var r := TrySeparators(s, cap, from, k);
            && (r.Some? ==>
                  && from < r.value.0 <= from + k
                  && CaptureEnd(s, cap, r.value.0) == Some(r.value.1)
                  && forall c :: r.value.0 < c <= from + k ==> CaptureEnd(s, cap, c).None?)
            && (r.None? ==> forall c :: from < c <= from + k ==> CaptureEnd(s, cap, c).None?)
  {
    var f := CaptureAt(s, cap);
    LastHitCorrect(f, from, k);
    assert forall c :: from < c <= from + k ==> f(c) == CaptureEnd(s, cap, c);
  }

  /** What the attempt at `p` finds is a match. */
  lemma MatchAtSound(s: string, pat: Pattern, p: nat)
    requires WellFormed(pat) && p <= |s|
    ensures var r := MatchAt(s, pat, p);
            r.Some? ==> r.value.start == p && IsMatch(s, pat, r.value)
  {
    var from := p + |pat.key|;
    if from <= |s| && FoldsFrom(s, pat.key, p, 0) {
      FoldsFromMeans(s, pat.key, p, 0);
      assert FoldsTo(s, pat.key, p);
      var k := Run(s, from, IsSeparator);
      TrySeparatorsCorrect(s, pat.capture, from, k);
      var r := TrySeparators(s, pat.capture, from, k);
      if r.Some? {
        var (c, e) := r.value;
        CaptureEndCorrect(s, pat, c);
        assert MatchAt(s, pat, p) == Some(Match(p, c, e));
        assert forall j :: from <= j < c ==> IsSeparator(s[j]);
      }
    }
  }

  /** The capture the engine takes at `q` reaches at least as far as any
      the group can match there. */
  lemma CaptureEndCovers(s: string, pat: Pattern, q: nat, e: int)
    requires WellFormed(pat) && Captures(s, pat.capture, q, e)
    ensures CaptureEnd(s, pat.capture, q).Some? && e <= CaptureEnd(s, pat.capture, q).value
  {
    CaptureEndCorrect(s, pat, q);
  }

  /** If the capture can succeed after `c` separators, backtracking stops
      there or earlier (at a longer separator run). */
  lemma TrySeparatorsReaches(s: string, cap: Capture, from: nat, k: nat, c: nat)
    requires from < c <= from + k <= |s| && CaptureEnd(s, cap, c).Some?
    ensures var r := TrySeparators(s, cap, from, k);
            r.Some? && c <= r.value.0 && (r.value.0 == c ==> r.value.1 == CaptureEnd(s, cap, c).value)
  {
    TrySeparatorsCorrect(s, cap, from, k);
  }

  lemma MatchAtFound(s: string, pat: Pattern, p: nat, c: nat, e: nat)
    requires p + |pat.key| <= |s| && FoldsFrom(s, pat.key, p, 0)
    requires TrySeparators(s, pat.capture, p + |pat.key|, Run(s, p + |pat.key|, IsSeparator)) == Some((c, e))
    ensures MatchAt(s, pat, p) == Some(Match(p, c, e))
  {
  }

  /** Backtracking after `from` succeeds no earlier than at any separator
      run after which the capture succeeds, and with a capture at least as
      long as that one's. */
  lemma TrySeparatorsBeats(s: string, cap: Capture, from: nat, c: nat, e: nat)
    requires from < c <= |s|
    requires forall j :: from <= j < c ==> IsSeparator(s[j])
    requires CaptureEnd(s, cap, c).Some? && e <= CaptureEnd(s, cap, c).value
    ensures var r := TrySeparators(s, cap, from, Run(s, from, IsSeparator));
            r.Some? && c <= r.value.0 && (r.value.0 == c ==> e <= r.value.1)
  {
    var k := Run(s, from, IsSeparator);
    RunIsLongest(s, from, IsSeparator, c);
    TrySeparatorsReaches(s, cap, from, k, c);
  }

  /** A match starting at `p` whose capture the engine would take is found
      by the attempt at `p`, or comes after what that attempt finds. */
  lemma MatchAtBeats(s: string, pat: Pattern, p: nat, c: nat, e: nat)
    requires p + |pat.key| < c <= |s| && FoldsTo(s, pat.key, p)
    requires forall j :: p + |pat.key| <= j < c ==> IsSeparator(s[j])
    requires CaptureEnd(s, pat.capture, c).Some? && e <= CaptureEnd(s, pat.capture, c).value
    ensures MatchAt(s, pat, p).Some? && Preferred(MatchAt(s, pat, p).value, Match(p, c, e))
  {
    var from := p + |pat.key|;
    TrySeparatorsBeats(s, pat.capture, from, c, e);
    FoldsFromMeans(s, pat.key, p, 0);
    assert FoldsFrom(s, pat.key, p, 0);
    var r := TrySeparators(s, pat.capture, from, Run(s, from, IsSeparator));
    var (c', e') := r.value;
    MatchAtFound(s, pat, p, c', e');
    assert Preferred(Match(p, c', e'), Match(p, c, e));
  }

  lemma MatchAtCorrect(s: string, pat: Pattern, p: nat)
    requires WellFormed(pat) && p <= |s|
    ensures var r := MatchAt(s, pat, p);
            && (r.Some? ==>
                  && r.value.start == p && IsMatch(s, pat, r.value)
                  && forall m :: IsMatch(s, pat, m) && m.start == p ==> Preferred(r.value, m))
            && (r.None? ==> forall m :: IsMatch(s, pat, m) ==> m.start != p)
  {
    MatchAtSound(s, pat, p);
    forall m | IsMatch(s, pat, m) && m.start == p
      ensures MatchAt(s, pat, p).Some? && Preferred(MatchAt(s, pat, p).value, m)
    {
      CaptureEndCovers(s, pat, m.capStart, m.capEnd);
      MatchAtBeats(s, pat, p, m.capStart, m.capEnd);
    }
  }

  lemma {:induction false} FindFromCorrect(s: string, pat: Pattern, p: nat)
    requires WellFormed(pat)
    ensures var r := FindFrom(s, pat, p);
            && (r.Some? ==>
                  && p <= r.value.start && IsMatch(s, pat, r.value)
                  && forall m :: IsMatch(s, pat, m) && p <= m.start ==> Preferred(r.value, m))
            && (r.None? ==> forall m :: IsMatch(s, pat, m) ==> m.start < p)
    decreases |s| + 1 - p
  {
    if p <= |s| {
      MatchAtCorrect(s, pat, p);
      FindFromCorrect(s, pat, p + 1);
    }
  }

  /** `m` is the match the engine returns: a match, and preferred over all
      others. */
  ghost predicate IsFirstMatch(s: string, pat: Pattern, m: Match) {
    IsMatch(s, pat, m) && forall m2 :: IsMatch(s, pat, m2) ==> Preferred(m, m2)
  }

  ghost predicate NoMatch(s: string, pat: Pattern) {
    forall m :: !IsMatch(s, pat, m)
  }

  /** `s.match(pattern)` finds a match exactly when the pattern matches
      somewhere, and the one it finds is preferred over every other. */
  lemma FindCorrect(s: string, pat: Pattern)
    requires WellFormed(pat)
    ensures Find(s, pat).Some? ==> IsFirstMatch(s, pat, Find(s, pat).value)
    ensures Find(s, pat).None? ==> NoMatch(s, pat)
  {
    FindFromCorrect(s, pat, 0);
  }

  /** There is at most one first match, and it is what `Find` returns. */
  lemma FindIsFirstMatch(s: string, pat: Pattern)
    requires WellFormed(pat)
    ensures forall m :: IsFirstMatch(s, pat, m) ==> Find(s, pat) == Some(m)
  {
    FindCorrect(s, pat);
    forall m | IsFirstMatch(s, pat, m) ensures Find(s, pat) == Some(m) {
      var f := Find(s, pat).value;
      assert Preferred(f, m) && Preferred(m, f);
    }
  }

  // ----- Recognising the first match -----

  /** A match is the first one when nothing before it can start the label,
      its separator run cannot be extended, and no capture at its capture's
      start reaches further. */
  lemma FirstMatchAt(s: string, pat: Pattern, m: Match)
    requires WellFormed(pat) && |pat.key| > 0
    requires IsMatch(s, pat, m)
    requires m.capStart == |s| || !IsSeparator(s[m.capStart])
    requires forall e :: Captures(s, pat.capture, m.capStart, e) ==> e <= m.capEnd
    requires forall i :: 0 <= i < m.start ==> !SameIgnoringCase(s[i], pat.key[0])
    ensures IsFirstMatch(s, pat, m)
  {
    forall m2 | IsMatch(s, pat, m2) ensures Preferred(m, m2) {
      assert SameIgnoringCase(s[m2.start + 0], pat.key[0]);
    }
  }

  /** A label that occurs only where a character other than ':' or white
      space follows it (a quoted key such as `"animal":`) never matches. */
  lemma {:induction false} UnseparatedLabelsNoMatch(s: string, pat: Pattern)
    requires forall p :: FoldsTo(s, pat.key, p) ==>
               p + |pat.key| < |s| && !IsSeparator(s[p + |pat.key|])
    ensures NoMatch(s, pat)
  {
    forall m ensures !IsMatch(s, pat, m) {
      if FoldsTo(s, pat.key, m.start) {
        assert !IsSeparator(s[m.start + |pat.key|]);
      }
    }
  }

  /** A label one of whose letters the subject never holds, in either case,
      never matches. */
  lemma MissingLetterNoMatch(s: string, pat: Pattern, k: nat)
    requires k < |pat.key|
    requires forall i :: 0 <= i < |s| ==> !SameIgnoringCase(s[i], pat.key[k])
    ensures NoMatch(s, pat)
  {
    forall m ensures !IsMatch(s, pat, m) {
      if m.start + |pat.key| <= |s| {
        assert !SameIgnoringCase(s[m.start + k], pat.key[k]);
      }
    }
  }

  /** A run of digits ended by something other than a digit or '.' is the
      longest decimal capture there. */
  lemma DecimalCaptureUpTo(s: string, q: nat, e: nat)
    requires q < e < |s|
    requires forall j :: q <= j < e ==> IsDigit(s[j])
    requires !IsDigit(s[e]) && s[e] != '.'
    ensures Captures(s, Decimal, q, e)
    ensures forall e' :: Captures(s, Decimal, q, e') ==> e' <= e
  {
    assert DecimalSplit(s, q, e, e);
    forall e' | Captures(s, Decimal, q, e') ensures e' <= e {
      var d :| DecimalSplit(s, q, d, e');
    }
  }

  /** A run of allowed characters ended by a stop character is the longest
      `[^stops]+` capture there. */
  lemma NoneOfCaptureUpTo(s: string, stops: set<char>, q: nat, e: nat)
    requires q < e < |s|
    requires forall j :: q <= j < e ==> s[j] !in stops
    requires s[e] in stops
    ensures Captures(s, NoneOf(stops), q, e)
    ensures forall e' :: Captures(s, NoneOf(stops), q, e') ==> e' <= e
  {
  }
}
