/** The string primitives the pet identifier relies on, with JavaScript's
    meaning: the regular-expression classes `\s` and `\d`, ASCII case folding
    as a non-unicode case-insensitive regular expression performs it,
    `String.prototype.trim`, `String.prototype.includes`, and decimal digit
    strings. A string is a sequence of characters. */
module Text {
  import opened Wrappers

  /** ECMAScript WhiteSpace and LineTerminator code points: what `\s` matches
      and what `trim` removes from both ends. */
  predicate IsSpace(c: char) {
    || c == '\t' || c == '\n' || c == '\U{000B}' || c == '\U{000C}' || c == '\r'
    || c == ' ' || c == '\U{00A0}' || c == '\U{1680}'
    || ('\U{2000}' <= c <= '\U{200A}')
    || c == '\U{2028}' || c == '\U{2029}' || c == '\U{202F}' || c == '\U{205F}'
    || c == '\U{3000}' || c == '\U{FEFF}'
  }

  /** What `\d` matches: ASCII digits only. */
  predicate IsDigit(c: char) {
    '0' <= c <= '9'
  }

  ghost predicate AllDigits(t: string) {
    forall i :: 0 <= i < |t| ==> IsDigit(t[i])
  }

  function Upper(c: char): char {
    if 'a' <= c <= 'z' then (c as int - 32) as char else c
  }

  function Lower(c: char): char {
    if 'A' <= c <= 'Z' then (c as int + 32) as char else c
  }

  /** `String.prototype.toLowerCase` on the ASCII letters the model applies it to. */
  function LowerString(s: string): string {
    seq(|s|, i requires 0 <= i < |s| => Lower(s[i]))
  }

  /** Whether character `c` of the subject matches the ASCII pattern character
      `p` under the `i` flag. Without the `u` flag JavaScript compares the
      upper-case forms and never lets a non-ASCII character fold onto an ASCII
      one, so against an ASCII pattern this is exactly ASCII case folding. */
  predicate SameIgnoringCase(c: char, p: char) {
    Upper(c) == Upper(p)
  }

  /** Length of the longest run of characters satisfying `P` that starts at `q`:
      the greedy `+`/`*` loop of a regular expression over one character class. */
  function Run(s: string, q: nat, P: char -> bool): (n: nat)
    requires q <= |s|
    ensures q + n <= |s|
    ensures forall j :: q <= j < q + n ==> P(s[j])
    ensures q + n == |s| || !P(s[q + n])
    decreases |s| - q
  {
    if q < |s| && P(s[q]) then 1 + Run(s, q + 1, P) else 0
  }

  /** Any run of `P`-characters starting at `q` lies within the longest one. */
  lemma RunIsLongest(s: string, q: nat, P: char -> bool, e: nat)
    requires q <= e <= |s|
    requires forall j :: q <= j < e ==> P(s[j])
    ensures e <= q + Run(s, q, P)
  {
  }

  /** The longest run stops at the first character that fails `P`. */
  lemma RunStopsBefore(s: string, q: nat, P: char -> bool, x: nat)
    requires q <= x < |s| && !P(s[x])
    ensures q + Run(s, q, P) <= x
  {
  }

  function TrimStart(s: string): (r: string)
    ensures |r| <= |s| && r == s[|s| - |r|..]
    ensures forall i :: 0 <= i < |s| - |r| ==> IsSpace(s[i])
    ensures r == [] || !IsSpace(r[0])
  {
    s[Run(s, 0, IsSpace)..]
  }

  function TrimEnd(s: string): (r: string)
    ensures |r| <= |s| && r == s[..|r|]
    ensures forall i :: |r| <= i < |s| ==> IsSpace(s[i])
    ensures r == [] || !IsSpace(r[|r| - 1])
  {
    if |s| > 0 && IsSpace(s[|s| - 1]) then TrimEnd(s[..|s| - 1]) else s
  }

  /** `t` occurs in `s` at position `i`. */
  ghost predicate PieceAt(s: string, t: string, i: int) {
    0 <= i && i + |t| <= |s| && s[i..i + |t|] == t
  }

  /** `r` occurs in `s` at position `a` with only white space around it. */
  ghost predicate PaddedAt(s: string, r: string, a: int) {
    && PieceAt(s, r, a)
    && (forall i :: 0 <= i < a ==> IsSpace(s[i]))
    && (forall i :: a + |r| <= i < |s| ==> IsSpace(s[i]))
  }

  /** `r` is `s` with its leading and trailing white space removed. */
  ghost predicate IsTrimOf(s: string, r: string) {
    && (r == [] || (!IsSpace(r[0]) && !IsSpace(r[|r| - 1])))
    && exists a :: PaddedAt(s, r, a)
  }

  /** `String.prototype.trim`. */
  function Trim(s: string): (r: string)
    ensures IsTrimOf(s, r)
    ensures forall c :: c in r ==> c in s
  {
    var t := TrimStart(s);
    var r := TrimEnd(t);
    assert PaddedAt(s, r, |s| - |t|);
    assert r != [] ==> r[0] == t[0];
    r
  }

  /** `String.prototype.startsWith`. */
  predicate StartsWith(s: string, p: string) {
    |p| <= |s| && s[..|p|] == p
  }

  /** `String.prototype.endsWith`. */
  predicate EndsWith(s: string, p: string) {
    |p| <= |s| && s[|s| - |p|..] == p
  }

  /** `String.prototype.lastIndexOf` for one character: the position of its
      last occurrence, None when it does not occur. */
  function LastIndexOf(s: string, c: char): (r: Option<nat>)
    ensures r.None? ==> c !in s
    ensures r.Some? ==> r.value < |s| && s[r.value] == c && c !in s[r.value + 1..]
  {
    if |s| == 0 then None
    else if s[|s| - 1] == c then Some(|s| - 1)
    else
      var r := LastIndexOf(s[..|s| - 1], c);
      assert s == s[..|s| - 1] + [s[|s| - 1]];
      r
  }

  /** A character followed by text free of it is found there. */
  lemma {:induction false} LastIndexOfBefore(x: string, c: char, y: string)
    requires c !in y
    ensures LastIndexOf(x + [c] + y, c) == Some(|x|)
    decreases |y|
  {
    var s := x + [c] + y;
    if |y| == 0 {
      assert s[|s| - 1] == c;
    } else {
      var y' := y[..|y| - 1];
      assert s[|s| - 1] == y[|y| - 1];
      assert s[..|s| - 1] == x + [c] + y';
      assert forall d :: d in y' ==> d in y;
      LastIndexOfBefore(x, c, y');
    }
  }

  /** Text without white space at either end is its own trim. */
  lemma TrimUnpadded(t: string)
    requires |t| > 0 && !IsSpace(t[0]) && !IsSpace(t[|t| - 1])
    ensures Trim(t) == t
  {
    assert TrimStart(t) == t;
  }

  /** Trimming drops one trailing white-space character after unpadded text. */
  lemma TrimTrailingSpace(t: string, c: char)
    requires |t| > 0 && !IsSpace(t[0]) && !IsSpace(t[|t| - 1]) && IsSpace(c)
    ensures Trim(t + [c]) == t
  {
    var u := t + [c];
    assert TrimStart(u) == u;
    assert u[..|u| - 1] == t;
    assert TrimEnd(t) == t;
  }

  /** `s` holds `t` as a contiguous piece. */
  ghost predicate Contains(s: string, t: string) {
    exists i :: PieceAt(s, t, i)
  }

  /** Characters `k..` of `t` equal those of `s` from position `i + k` on. */
  predicate AgreesFrom(s: string, t: string, i: nat, k: nat)
    decreases |t| - k
  {
    if k >= |t| then true
    else if i + k >= |s| then false
    else if s[i + k] != t[k] then false
    else AgreesFrom(s, t, i, k + 1)
  }

  lemma AgreesFromMeans(s: string, t: string, i: nat, k: nat)
    requires i + |t| <= |s| && k <= |t|
    ensures AgreesFrom(s, t, i, k) <==> s[i + k..i + |t|] == t[k..]
    decreases |t| - k
  {
    if k < |t| {
      AgreesFromMeans(s, t, i, k + 1);
      assert s[i + k..i + |t|] == [s[i + k]] + s[i + k + 1..i + |t|];
      assert t[k..] == [t[k]] + t[k + 1..];
    }
  }

  /** The search `includes` performs, from position `i` on. */
  predicate IncludesFrom(s: string, t: string, i: nat)
    decreases |s| - i
  {
    if i + |t| > |s| then false
    else if AgreesFrom(s, t, i, 0) then true
    else IncludesFrom(s, t, i + 1)
  }

  lemma {:induction false} IncludesFromMeans(s: string, t: string, i: nat)
    ensures IncludesFrom(s, t, i) <==> exists j :: i <= j && PieceAt(s, t, j)
    decreases |s| - i
  {
    if i + |t| <= |s| {
      AgreesFromMeans(s, t, i, 0);
      IncludesFromMeans(s, t, i + 1);
      if AgreesFrom(s, t, i, 0) {
        assert PieceAt(s, t, i);
      } else {
        assert !PieceAt(s, t, i);
        assert forall j :: i <= j && PieceAt(s, t, j) ==> i + 1 <= j;
      }
    }
  }

  /** `String.prototype.includes`: it answers exactly whether `s` contains `t`. */
  function Includes(s: string, t: string): (b: bool)
    ensures b <==> Contains(s, t)
  {
    IncludesFromMeans(s, t, 0);
    IncludesFrom(s, t, 0)
  }

  /** A piece of the right-hand part of a concatenation is a piece of the whole. */
  lemma ContainsInSuffix(h: string, s: string, t: string)
    requires Contains(s, t)
    ensures Contains(h + s, t)
  {
    var i :| PieceAt(s, t, i);
    assert (h + s)[|h| + i..|h| + i + |t|] == t;
    assert PieceAt(h + s, t, |h| + i);
  }

  function Pow10(n: nat): (p: nat)
    ensures p > 0
  {
    if n == 0 then 1 else 10 * Pow10(n - 1)
  }

  function DigitValue(c: char): nat
    requires IsDigit(c)
  {
    c as int - '0' as int
  }

  function Digit(d: nat): (c: char)
    requires d < 10
    ensures IsDigit(c) && DigitValue(c) == d
  {
    ('0' as int + d) as char
  }

  /** The number a string of decimal digits denotes. */
  function DigitsValue(t: string): nat
    requires AllDigits(t)
  {
    if t == [] then 0 else 10 * DigitsValue(t[..|t| - 1]) + DigitValue(t[|t| - 1])
  }

  /** The decimal numeral of `n`, as JavaScript writes a non-negative integer:
      no leading zero, and it reads back as `n`. */
  function ShowNat(n: nat): (r: string)
    ensures |r| > 0 && AllDigits(r)
    ensures r[0] != '0' || r == "0"
    ensures DigitsValue(r) == n
  {
    if n < 10 then [Digit(n)]
    else
      var r := ShowNat(n / 10) + [Digit(n % 10)];
      assert r[..|r| - 1] == ShowNat(n / 10);
      r
  }

  /** `m` scaled down by `k` decimal places, one place at a time. */
  function Scaled(m: nat, k: nat): (x: real)
    ensures x >= 0.0
  {
    if k == 0 then m as real else Scaled(m, k - 1) / 10.0
  }

  /** Scaling down by `k` places and multiplying by the `k`-th power of ten
      gives back `m`. */
  lemma {:induction false} ScaledTimesPower(m: nat, k: nat)
    ensures Scaled(m, k) * Pow10(k) as real == m as real
  {
    if k > 0 {
      ScaledTimesPower(m, k - 1);
      var x := Scaled(m, k - 1);
      var p := Pow10(k - 1) as real;
      var y := Scaled(m, k);
      assert y * 10.0 == x;
      assert Pow10(k) as real == 10.0 * p;
      calc {
        y * (10.0 * p);
        (y * 10.0) * p;
        x * p;
      }
    }
  }

  /** Scaling down by `k` places divides by the `k`-th power of ten. */
  lemma ScaledIsQuotient(m: nat, k: nat)
    ensures Scaled(m, k) == m as real / Pow10(k) as real
  {
    ScaledTimesPower(m, k);
    var p := Pow10(k) as real;
    var y := Scaled(m, k);
    assert y * p == m as real;
    assert y == (y * p) / p;
  }

  /** The value `parseFloat` gives the leading `\d+(\.\d+)?` of `t`, as an
      exact rational: the whole digits, plus the digits after a following '.'
      scaled down by their count. */
  function DecimalValue(t: string): (v: real)
    ensures v >= 0.0
  {
    var d := Run(t, 0, IsDigit);
    var whole := DigitsValue(t[..d]) as real;
    if d < |t| && t[d] == '.' then whole + FractionValue(t, d + 1) else whole
  }

  /** The value of the digits starting at `q`, read as a decimal fraction. */
  function FractionValue(t: string, q: nat): (x: real)
    requires q <= |t|
    ensures x >= 0.0
  {
    var g := Run(t, q, IsDigit);
    Scaled(DigitsValue(t[q..q + g]), g)
  }

  /** A numeral without a fractional part denotes exactly its integer. */
  lemma DecimalValueOfDigits(t: string)
    requires |t| > 0 && AllDigits(t)
    ensures DecimalValue(t) == DigitsValue(t) as real
  {
    RunIsLongest(t, 0, IsDigit, |t|);
    assert Run(t, 0, IsDigit) == |t|;
    assert t[..|t|] == t;
  }

  /** `DecimalValue` of a numeral `t` whose whole digits `w` end at a '.'
      followed by the fraction digits `f`. */
  lemma DecimalValueWithPoint(t: string, w: string, f: string)
    requires |w| < |t| && t[..|w|] == w && t[|w|] == '.' && t[|w| + 1..|t|] == f
    requires Run(t, 0, IsDigit) == |w| && Run(t, |w| + 1, IsDigit) == |f|
    ensures DecimalValue(t) == DigitsValue(w) as real + Scaled(DigitsValue(f), |f|)
  {
    var d := Run(t, 0, IsDigit);
    var g := Run(t, d + 1, IsDigit);
    assert t[..d] == w;
    FractionValueOf(t, d + 1, f);
  }

  /** `FractionValue` of the digits `f` that run from `q` to the next non-digit. */
  lemma FractionValueOf(t: string, q: nat, f: string)
    requires q + |f| <= |t| && t[q..q + |f|] == f && Run(t, q, IsDigit) == |f|
    ensures FractionValue(t, q) == Scaled(DigitsValue(f), |f|)
  {
    var u := t[q..q + Run(t, q, IsDigit)];
    assert u == f;
    var m := DigitsValue(u);
    assert m == DigitsValue(f);
    assert FractionValue(t, q) == Scaled(m, |f|);
  }

  /** The pieces of `w + [x] + f`, by position. */
  lemma AroundPoint<T>(w: seq<T>, x: T, f: seq<T>)
    ensures var t := w + [x] + f;
            t[..|w|] == w && t[|w|] == x && t[|w| + 1..|t|] == f
  {
  }

  /** Where the digit runs of `w + "." + f` end. */
  lemma RunsAroundPoint(w: string, f: string)
    requires AllDigits(w) && AllDigits(f)
    ensures var t := w + "." + f;
            Run(t, 0, IsDigit) == |w| && Run(t, |w| + 1, IsDigit) == |f|
  {
    var t := w + "." + f;
    assert forall j :: 0 <= j < |w| ==> t[j] == w[j];
    assert forall j :: |w| + 1 <= j < |t| ==> t[j] == f[j - |w| - 1];
    RunIsLongest(t, 0, IsDigit, |w|);
    RunStopsBefore(t, 0, IsDigit, |w|);
    RunIsLongest(t, |w| + 1, IsDigit, |t|);
  }

  /** A numeral with a fractional part denotes its whole digits plus its
      fraction digits scaled down by their count. */
  lemma DecimalValueOfFraction(w: string, f: string)
    requires AllDigits(w) && AllDigits(f)
    ensures DecimalValue(w + "." + f)
            == DigitsValue(w) as real + Scaled(DigitsValue(f), |f|)
    ensures DecimalValue(w + "." + f)
            == DigitsValue(w) as real + DigitsValue(f) as real / Pow10(|f|) as real
  {
    AroundPoint(w, '.', f);
    RunsAroundPoint(w, f);
    DecimalValueWithPoint(w + "." + f, w, f);
    ScaledIsQuotient(DigitsValue(f), |f|);
  }

  /** "confidence: 0.85" reads as exactly 0.85. */
  lemma DecimalValueExample()
    ensures DecimalValue("0.85") == 0.85
  {
    assert "0.85" == "0" + "." + "85";
    DecimalValueOfFraction("0", "85");
    assert DigitsValue("85") == 85 by {
      assert "85"[..1] == "8";
      assert "8"[..0] == "";
    }
  }
}
