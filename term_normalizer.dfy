/** The maturity-label normaliser `convert_security_term`: a label such as "4-Week" or
    "1-Year 11-Month" becomes a number of years. Spaces are rewritten to dashes, the regular
    expression `(\d+)-([A-Za-z]+)` is scanned for its leftmost non-overlapping matches, and each
    (number, unit) pair adds number/365, /52, /12 or /1 according to an ordered, case-sensitive
    substring test on the unit word. Arithmetic is exact (`real`). */
module TermNormalizer {
  import opened Wrappers
  import opened Sequences

  /** One `(value, unit)` pair found in a label, e.g. 11 and "Month". */
  datatype Token = Token(value: nat, unit: string)

  predicate IsDigit(c: char) { '0' <= c <= '9' }

  predicate IsLetter(c: char) { 'A' <= c <= 'Z' || 'a' <= c <= 'z' }

  /** The two character classes of the pattern: `\d` (ASCII digits) and `[A-Za-z]`. */
  datatype CharClass = Digit | Letter

  predicate InClass(c: char, k: CharClass) {
    match k
    case Digit => IsDigit(c)
    case Letter => IsLetter(c)
  }

  predicate AllInClass(s: string, k: CharClass) {
    forall i :: 0 <= i < |s| ==> InClass(s[i], k)
  }

  /** A unit word as the pattern captures it: one or more ASCII letters. */
  predicate WellFormed(t: Token) {
    |t.unit| > 0 && AllInClass(t.unit, Letter)
  }

  // ---------------------------------------------------------------------------
  // Step 1: `term.replace(" ", "-")`

  function SpacesToDashes(s: string): (r: string)
    ensures ' ' !in r
  {
    seq(|s|, i requires 0 <= i < |s| => if s[i] == ' ' then '-' else s[i])
  }

  lemma {:induction false} SpacesToDashesAppend(a: string, b: string)
    ensures SpacesToDashes(a + b) == SpacesToDashes(a) + SpacesToDashes(b)
  {
    assert forall i :: 0 <= i < |a + b| ==> SpacesToDashes(a + b)[i] == (SpacesToDashes(a) + SpacesToDashes(b))[i];
  }

  /** Rewriting spaces to dashes a second time changes nothing. */
  lemma {:induction false} SpacesToDashesIdempotent(s: string)
    ensures SpacesToDashes(SpacesToDashes(s)) == SpacesToDashes(s)
  {
    var r := SpacesToDashes(s);
    assert forall i :: 0 <= i < |r| ==> SpacesToDashes(r)[i] == r[i];
  }

  // ---------------------------------------------------------------------------
  // Step 2: `re.findall(r"(\d+)-([A-Za-z]+)", term)`

  /** Length of the longest prefix of `s` in class `k`: what a greedy `\d+` or `[A-Za-z]+` consumes. */
  function RunLength(s: string, k: CharClass): (n: nat)
    ensures n <= |s|
    ensures forall i :: 0 <= i < n ==> InClass(s[i], k)
    ensures n < |s| ==> !InClass(s[n], k)
  {
    if s == [] || !InClass(s[0], k) then 0 else 1 + RunLength(s[1..], k)
  }

  /** A run that stops inside `s` stops at the same place in `s + c`; a run that fills `s`
      continues into `c`. */
  lemma {:induction false} RunLengthAppend(s: string, c: string, k: CharClass)
    ensures RunLength(s + c, k) == if RunLength(s, k) < |s| then RunLength(s, k) else |s| + RunLength(c, k)
  {
    if s == [] {
      assert s + c == c;
    } else if InClass(s[0], k) {
      assert (s + c)[1..] == s[1..] + c;
      RunLengthAppend(s[1..], c, k);
    }
  }

  function DigitValue(c: char): nat
    requires IsDigit(c)
  {
    (c as int) - ('0' as int)
  }

  /** `float(value)` of a run of ASCII digits, read most significant digit first. */
  function DecimalValue(d: string): nat
    requires AllInClass(d, Digit)
  {
    if d == [] then 0 else 10 * DecimalValue(d[..|d| - 1]) + DigitValue(d[|d| - 1])
  }

  /** A leading zero does not change the number: `float("04")` is 4. */
  lemma {:induction false} DecimalLeadingZero(d: string)
    requires AllInClass(d, Digit)
    ensures AllInClass("0" + d, Digit) && DecimalValue("0" + d) == DecimalValue(d)
    decreases |d|
  {
    var z := "0" + d;
    assert forall i :: 0 < i < |z| ==> z[i] == d[i - 1];
    if d != [] {
      var init := d[..|d| - 1];
      assert z[..|z| - 1] == "0" + init;
      assert z[|z| - 1] == d[|d| - 1];
      DecimalLeadingZero(init);
    } else {
      assert z[..0] == [];
    }
  }

  /** The prefix that a run of class `k` covers is all of class `k`. */
  lemma {:induction false} RunPrefix(s: string, k: CharClass)
    ensures AllInClass(s[..RunLength(s, k)], k)
  {
    var n := RunLength(s, k);
    forall i | 0 <= i < n ensures InClass(s[..n][i], k) {
      assert s[..n][i] == s[i];
    }
  }

  /** After a maximal digit run of length `d`, the pattern needs '-' and then a letter. */
  predicate DashThenLetter(s: string, d: nat) {
    d + 1 < |s| && s[d] == '-' && IsLetter(s[d + 1])
  }

  /** The groups of a successful match whose digit run has length `d`, and the text after the
      match: the letter run `[A-Za-z]+` is greedy too. */
  function Capture(s: string, d: nat): (m: (Token, string))
    requires 0 < d && DashThenLetter(s, d) && AllInClass(s[..d], Digit)
    ensures WellFormed(m.0)
    ensures |m.1| + 3 <= |s| && m.1 == s[|s| - |m.1|..]
    ensures m.1 == [] || !IsLetter(m.1[0])
  {
    var tail := s[d + 1..];
    var u := RunLength(tail, Letter);
    RunPrefix(tail, Letter);
    assert s[d + 1..d + 1 + u] == tail[..u];
    assert s[d + 1 + u..] == tail[u..];
    (Token(DecimalValue(s[..d]), s[d + 1..d + 1 + u]), s[d + 1 + u..])
  }

  /** The tried match of `(\d+)-([A-Za-z]+)` at the first character of `s`: the captured pair and
      the text after the match, or None. Backtracking into `\d+` can never help: a shorter digit
      run is followed by a digit, not by '-'. */
  function MatchAt(s: string): (m: Option<(Token, string)>)
    ensures m.Some? ==> WellFormed(m.value.0)
    ensures m.Some? ==> |m.value.1| + 3 <= |s| && m.value.1 == s[|s| - |m.value.1|..]
    ensures m.Some? ==> m.value.1 == [] || !IsLetter(m.value.1[0])
    ensures m.Some? ==> 0 < |s| && IsDigit(s[0])
  {
    var d := RunLength(s, Digit);
    if 0 < d && DashThenLetter(s, d) then
      RunPrefix(s, Digit);
      Some(Capture(s, d))
    else
      None
  }

  /** All leftmost, non-overlapping matches, left to right: after a match the scan resumes after
      its letter run; after a failed attempt it moves on by one character. Every match takes at
      least three characters: a digit, the dash and a letter. */
  function FindAll(s: string): (r: seq<Token>)
    ensures 3 * |r| <= |s|
    decreases |s|
  {
    if s == [] then []
    else
      match MatchAt(s)
      case Some((t, rest)) => [t] + FindAll(rest)
      case None => FindAll(s[1..])
  }

  lemma {:induction false} FindAllOnMiss(s: string)
    requires s != [] && MatchAt(s).None?
    ensures FindAll(s) == FindAll(s[1..])
  {
  }

  /** Every captured unit is a non-empty run of letters. */
  lemma {:induction false} FindAllWellFormed(s: string)
    ensures forall i :: 0 <= i < |FindAll(s)| ==> WellFormed(FindAll(s)[i])
    decreases |s|
  {
    if s != [] {
      var m := MatchAt(s);
      if m.Some? {
        FindAllWellFormed(m.value.1);
      } else {
        FindAllWellFormed(s[1..]);
      }
    }
  }

  /** A match of the pattern at the start of `x` whose groups are `t`: a maximal digit run, '-',
      and a maximal, non-empty letter run. */
  predicate MatchHere(x: string, t: Token) {
    var d := RunLength(x, Digit);
    && 0 < d && 0 < |t.unit| && d + 1 + |t.unit| <= |x| && x[d] == '-'
    && AllInClass(x[..d], Digit) && t.value == DecimalValue(x[..d])
    && t.unit == x[d + 1..d + 1 + |t.unit|] && |t.unit| == RunLength(x[d + 1..], Letter)
  }

  /** Pair `t` is matched at position `p` of `s`, where a digit run begins: the character before
      `p`, if any, is not a digit. */
  predicate StartsAt(s: string, p: nat, t: Token) {
    p < |s| && (p == 0 || !IsDigit(s[p - 1])) && MatchHere(s[p..], t)
  }

  /** Every pair the scanner reports in `s` is matched at the start of a digit run of `s`. */
  ghost predicate Sound(s: string) {
    forall t :: t in FindAll(s) ==> exists p :: StartsAt(s, p, t)
  }

  /** Soundness of the scanner: every pair reported is the groups of a match that begins where a
      whole digit run begins, so a pair never starts inside a longer number. */
  lemma {:induction false} FindAllSound(s: string)
    ensures forall t :: t in FindAll(s) ==> exists p :: StartsAt(s, p, t)
    decreases |s|
  {
    if s != [] {
      match MatchAt(s)
      case Some((t0, rest)) =>
        FindAllSound(rest);
        SoundAfterMatch(s, t0, rest);
      case None =>
        if IsDigit(s[0]) {
          var n := RunLength(s, Digit);
          FindAllSound(s[n..]);
          SoundAfterDigitRun(s, n);
        } else {
          FindAllSound(s[1..]);
          SoundAfterMiss(s);
        }
    }
  }

  lemma {:induction false} SoundAfterMatch(s: string, t0: Token, rest: string)
    requires MatchAt(s) == Some((t0, rest)) && Sound(rest)
    ensures Sound(s)
  {
    FindAllWhenMatched(s, t0, rest);
    MatchAtHere(s, t0, rest);
    var o := |s| - |rest|;
    forall t | t in FindAll(s) ensures exists p :: StartsAt(s, p, t) {
      if t == t0 {
        assert s[0..] == s;
        assert StartsAt(s, 0, t0);
      } else {
        assert t in FindAll(rest);
        var p :| StartsAt(rest, p, t);
        ShiftStart(s, o, p, t);
      }
    }
  }

  lemma {:induction false} SoundAfterDigitRun(s: string, n: nat)
    requires s != [] && IsDigit(s[0]) && MatchAt(s) == None
    requires n == RunLength(s, Digit) && Sound(s[n..])
    ensures Sound(s)
  {
    SkipDigitRun(s);
    forall t | t in FindAll(s) ensures exists p :: StartsAt(s, p, t) {
      var p :| StartsAt(s[n..], p, t);
      if n < |s| {
        assert s[n..][0] == s[n];
      }
      NoStartAtNonDigit(s[n..], t);
      ShiftStart(s, n, p, t);
    }
  }

  lemma {:induction false} SoundAfterMiss(s: string)
    requires s != [] && !IsDigit(s[0]) && MatchAt(s) == None && Sound(s[1..])
    ensures Sound(s)
  {
    FindAllOnMiss(s);
    forall t | t in FindAll(s) ensures exists p :: StartsAt(s, p, t) {
      var p :| StartsAt(s[1..], p, t);
      ShiftStart(s, 1, p, t);
    }
  }

  /** Completeness of the scanner: every match that begins where a whole digit run begins is
      reported, as `re.findall` returns all of them. */
  lemma {:induction false} FindAllComplete(s: string, p: nat, t: Token)
    requires StartsAt(s, p, t)
    ensures t in FindAll(s)
    decreases |s|
  {
    match MatchAt(s)
    case Some((t0, rest)) =>
      FindAllWhenMatched(s, t0, rest);
      if p == 0 {
        CompleteAtMatch(s, t, t0, rest);
      } else {
        CompleteAfterMatch(s, p, t, t0, rest);
        FindAllComplete(rest, p - (|s| - |rest|), t);
      }
    case None =>
      CompleteAfterMiss(s, p, t);
      FindAllOnMiss(s);
      FindAllComplete(s[1..], p - 1, t);
  }

  lemma {:induction false} CompleteAtMatch(s: string, t: Token, t0: Token, rest: string)
    requires StartsAt(s, 0, t) && MatchAt(s) == Some((t0, rest))
    ensures t == t0
  {
    assert s[0..] == s;
    HereMatches(s, t);
  }

  lemma {:induction false} CompleteAfterMatch(s: string, p: nat, t: Token, t0: Token, rest: string)
    requires StartsAt(s, p, t) && 0 < p && MatchAt(s) == Some((t0, rest))
    ensures |s| - |rest| <= p && StartsAt(rest, p - (|s| - |rest|), t)
  {
    StartsAtDigit(s, p, t);
    MatchAtHere(s, t0, rest);
    NoStartInsideMatch(s, t0, rest, p);
    ShiftStartBack(s, |s| - |rest|, p, t);
  }

  lemma {:induction false} CompleteAfterMiss(s: string, p: nat, t: Token)
    requires StartsAt(s, p, t) && MatchAt(s).None?
    ensures 0 < p && StartsAt(s[1..], p - 1, t)
  {
    assert s[0..] == s;
    HereMatches(s, t);
    ShiftStartBack(s, 1, p, t);
  }

  /** The pairs the scanner reports are exactly the matches that begin where a digit run begins. */
  lemma {:induction false} FindAllIff(s: string, t: Token)
    ensures t in FindAll(s) <==> exists p :: StartsAt(s, p, t)
  {
    FindAllSound(s);
    if exists p :: StartsAt(s, p, t) {
      var p :| StartsAt(s, p, t);
      FindAllComplete(s, p, t);
    }
  }

  /** A match in the sense of `MatchHere` is what the attempt at the first character finds. */
  lemma {:induction false} HereMatches(s: string, t: Token)
    ensures MatchHere(s, t) ==> MatchAt(s).Some? && MatchAt(s).value.0 == t
  {
    if MatchHere(s, t) {
      var d := RunLength(s, Digit);
      var u := RunLength(s[d + 1..], Letter);
      assert s[d + 1..][0] == s[d + 1];
      assert DashThenLetter(s, d);
      CaptureAt(s, d, d + 1 + u);
    }
  }

  /** A match begins at a digit that does not follow a digit. */
  lemma {:induction false} StartsAtDigit(s: string, p: nat, t: Token)
    requires StartsAt(s, p, t)
    ensures IsDigit(s[p]) && (p > 0 ==> !IsDigit(s[p - 1]))
  {
    assert s[p..][0] == s[p];
  }

  /** No digit run begins strictly inside a match and after its first character. */
  lemma {:induction false} NoStartInsideMatch(s: string, t0: Token, rest: string, p: nat)
    requires MatchAt(s) == Some((t0, rest))
    ensures 0 < p < |s| - |rest| ==> !IsDigit(s[p]) || IsDigit(s[p - 1])
  {
    var d := RunLength(s, Digit);
    RunPrefix(s, Digit);
    var u := RunLength(s[d + 1..], Letter);
    CaptureAt(s, d, d + 1 + u);
    if 0 < p < |s| - |rest| {
      if p < d {
        assert InClass(s[p - 1], Digit);
      } else if d < p {
        assert s[p] == s[d + 1..][p - d - 1];
        assert InClass(s[d + 1..][p - d - 1], Letter);
      }
    }
  }

  /** A match at position `p >= o` of `s` is a match at `p - o` of the suffix from `o` on. */
  lemma {:induction false} ShiftStartBack(s: string, o: nat, p: nat, t: Token)
    requires 0 < o <= p && StartsAt(s, p, t)
    ensures StartsAt(s[o..], p - o, t)
  {
    assert s[o..][p - o..] == s[p..];
    if p > o {
      assert s[o..][p - o - 1] == s[p - 1];
    }
  }

  /** A successful match attempt is a match in the sense of `MatchHere`, and the text before the
      rest ends in a letter. */
  lemma {:induction false} MatchAtHere(s: string, t: Token, rest: string)
    requires MatchAt(s) == Some((t, rest))
    ensures MatchHere(s, t)
    ensures 0 < |s| - |rest| && rest == s[|s| - |rest|..] && IsLetter(s[|s| - |rest| - 1])
  {
    var d := RunLength(s, Digit);
    RunPrefix(s, Digit);
    var u := RunLength(s[d + 1..], Letter);
    CaptureAt(s, d, d + 1 + u);
    assert s[d + 1..][u - 1] == s[d + u];
  }

  /** A failed attempt at a digit fails at every digit of the same run: the scan resumes after it. */
  lemma {:induction false} SkipDigitRun(s: string)
    requires s != [] && IsDigit(s[0]) && MatchAt(s) == None
    ensures FindAll(s) == FindAll(s[RunLength(s, Digit)..])
    decreases |s|
  {
    FindAllOnMiss(s);
    var n := RunLength(s, Digit);
    var x := s[1..];
    if 1 < n {
      MissAtNextDigit(s);
      assert x[n - 1..] == s[n..];
      SkipDigitRun(x);
    }
  }

  /** Inside a digit run the attempt fails at the next digit too: the run ends at the same place. */
  lemma {:induction false} MissAtNextDigit(s: string)
    requires s != [] && IsDigit(s[0]) && MatchAt(s) == None && 1 < RunLength(s, Digit)
    ensures RunLength(s[1..], Digit) == RunLength(s, Digit) - 1
    ensures IsDigit(s[1..][0]) && MatchAt(s[1..]) == None
  {
    var n, x := RunLength(s, Digit), s[1..];
    assert forall i :: 0 <= i < |x| ==> x[i] == s[i + 1];
  }

  /** No match begins at a character that is not a digit. */
  lemma {:induction false} NoStartAtNonDigit(x: string, t: Token)
    requires x == [] || !IsDigit(x[0])
    ensures !StartsAt(x, 0, t)
  {
  }

  /** A match found in the suffix from `o` on is a match of the whole string, at the shifted position. */
  lemma {:induction false} ShiftStart(s: string, o: nat, p: nat, t: Token)
    requires 0 < o <= |s| && StartsAt(s[o..], p, t)
    requires p > 0 || !IsDigit(s[o - 1])
    ensures StartsAt(s, o + p, t)
  {
    assert s[o..][p..] == s[o + p..];
    if p > 0 {
      assert s[o..][p - 1] == s[o + p - 1];
    }
  }

  /** The `matches` list computed from a label (lines 136-137): well-formed pairs only. */
  function Tokens(term: string): (r: seq<Token>)
    ensures forall i :: 0 <= i < |r| ==> WellFormed(r[i])
  {
    var normalized := SpacesToDashes(term);
    FindAllWellFormed(normalized);
    FindAll(normalized)
  }

  // ---------------------------------------------------------------------------
  // Step 3: the unit test and the sum

  /** `sub in s` on Python strings: `sub` occurs at some position of `s`. */
  predicate Contains(s: string, sub: string)
    ensures Contains(s, sub) ==> |sub| <= |s|
    ensures sub == [] ==> Contains(s, sub)
    decreases |s|
  {
    (|sub| <= |s| && s[..|sub|] == sub) || (s != [] && Contains(s[1..], sub))
  }

  /** `sub` occurs in `s` at position `i`. */
  predicate OccursAt(s: string, sub: string, i: nat) {
    i + |sub| <= |s| && s[i..i + |sub|] == sub
  }

  /** Contains agrees with the positional definition of a substring. */
  lemma {:induction false} ContainsIff(s: string, sub: string)
    ensures Contains(s, sub) <==> exists i :: OccursAt(s, sub, i)
    decreases |s|
  {
    if s != [] {
      ContainsIff(s[1..], sub);
      if Contains(s[1..], sub) {
        var i: nat :| OccursAt(s[1..], sub, i);
        assert s[i + 1..i + 1 + |sub|] == s[1..][i..i + |sub|];
        assert OccursAt(s, sub, i + 1);
      }
      if |sub| <= |s| && s[..|sub|] == sub {
        assert OccursAt(s, sub, 0);
      }
      if exists i :: OccursAt(s, sub, i) {
        var i: nat :| OccursAt(s, sub, i);
        if i > 0 {
          assert s[1..][i - 1..i - 1 + |sub|] == s[i..i + |sub|];
          assert OccursAt(s[1..], sub, i - 1);
        }
      }
    } else {
      if |sub| == 0 {
        assert OccursAt(s, sub, 0);
      }
    }
  }

  /** A word containing `sub` contains its first character. */
  lemma {:induction false} ContainsFirstChar(s: string, sub: string)
    requires sub != [] && Contains(s, sub)
    ensures sub[0] in s
    decreases |s|
  {
    if |sub| <= |s| && s[..|sub|] == sub {
      assert s[0] == sub[0];
    } else {
      ContainsFirstChar(s[1..], sub);
      assert sub[0] in s[1..];
    }
  }

  /** The contribution of one pair (lines 141-149); a unit matching none of the words adds 0. */
  function TokenYears(t: Token): (y: real)
    ensures y >= 0.0
  {
    var value := t.value as real;
    if Contains(t.unit, "Day") then value / 365.0
    else if Contains(t.unit, "Week") then value / 52.0
    else if Contains(t.unit, "Month") then value / 12.0
    else if Contains(t.unit, "Year") then value
    else 0.0
  }

  /** The running total of the loop over the pairs, accumulated left to right. */
  function SumYears(ts: seq<Token>): (y: real)
    ensures y >= 0.0
  {
    if ts == [] then 0.0 else SumYears(ts[..|ts| - 1]) + TokenYears(ts[|ts| - 1])
  }

  /** The value `convert_security_term(term)` returns. */
  function TermYears(term: string): (y: real)
    ensures y >= 0.0
  {
    SumYears(Tokens(term))
  }

  /** `convert_security_term` (lines 134-151): rewrite, scan, and accumulate `total_years` over the
      matches, one unit test per pair. */
  method ConvertSecurityTerm(term: string) returns (totalYears: real)
    ensures totalYears == TermYears(term)
    ensures totalYears >= 0.0
  {
    var normalized := SpacesToDashes(term);
    var matches := FindAll(normalized);
    totalYears := 0.0;
    for k := 0 to |matches|
      invariant totalYears == SumYears(matches[..k])
    {
      assert matches[..k + 1][..k] == matches[..k];
      var value := matches[k].value as real;
      var unit := matches[k].unit;
      if Contains(unit, "Day") {
        totalYears := totalYears + value / 365.0;
      } else if Contains(unit, "Week") {
        totalYears := totalYears + value / 52.0;
      } else if Contains(unit, "Month") {
        totalYears := totalYears + value / 12.0;
      } else if Contains(unit, "Year") {
        totalYears := totalYears + value;
      }
    }
    assert matches[..|matches|] == matches;
  }

  // ---------------------------------------------------------------------------
  // Properties

  lemma {:induction false} SumYearsAppend(a: seq<Token>, b: seq<Token>)
    ensures SumYears(a + b) == SumYears(a) + SumYears(b)
    decreases |b|
  {
    if b == [] {
      assert a + b == a;
    } else {
      assert (a + b)[..|a + b| - 1] == a + b[..|b| - 1];
      SumYearsAppend(a, b[..|b| - 1]);
    }
  }

  /** A string without digits has no match. */
  lemma {:induction false} NoDigitNoMatch(s: string)
    requires forall i :: 0 <= i < |s| ==> !IsDigit(s[i])
    ensures FindAll(s) == []
    decreases |s|
  {
    if s != [] {
      NoDigitNoMatch(s[1..]);
    }
  }

  /** A label without any digit, such as "garbage", is worth 0 years rather than an error. */
  lemma {:induction false} NoDigitsYieldsZero(term: string)
    requires forall i :: 0 <= i < |term| ==> !IsDigit(term[i])
    ensures Tokens(term) == []
    ensures TermYears(term) == 0.0
  {
    NoDigitNoMatch(SpacesToDashes(term));
  }

  lemma {:induction false} GarbageIsZero()
    ensures TermYears("garbage") == 0.0
  {
    var g := "garbage";
    forall i | 0 <= i < |g| ensures !IsDigit(g[i]) {
      assert g[i] in {'g', 'a', 'r', 'b', 'e'};
    }
    NoDigitsYieldsZero(g);
  }

  /** Spaces and dashes are interchangeable: a label and the same label with every space written
      as a dash have the same pairs and the same value. */
  lemma {:induction false} SeparatorsInterchangeable(term: string)
    ensures Tokens(SpacesToDashes(term)) == Tokens(term)
    ensures TermYears(SpacesToDashes(term)) == TermYears(term)
  {
    SpacesToDashesIdempotent(term);
  }

  /** Matching at the start of `a + c` is matching at the start of `a`, when `a` ends in a letter
      and `c` does not start with one: no run can cross the join. */
  lemma {:induction false} MatchAtAppend(a: string, c: string)
    requires a != [] && IsLetter(a[|a| - 1])
    requires c == [] || !IsLetter(c[0])
    ensures MatchAt(a + c) == match MatchAt(a)
                              case None => None
                              case Some((t, rest)) => Some((t, rest + c))
  {
    var s := a + c;
    RunLengthAppend(a, c, Digit);
    var d := RunLength(a, Digit);
    assert d < |a|;
    assert RunLength(s, Digit) == d;
    if 0 < d && DashThenLetter(a, d) {
      RunPrefix(a, Digit);
      assert s[..d] == a[..d];
      CaptureAppend(a, c, d);
    } else if d + 1 == |a| {
      assert s[d] == a[d];
    } else {
      assert s[d] == a[d] && s[d + 1] == a[d + 1];
    }
  }

  lemma {:induction false} CaptureAppend(a: string, c: string, d: nat)
    requires 0 < d && DashThenLetter(a, d) && AllInClass(a[..d], Digit)
    requires c == [] || !IsLetter(c[0])
    ensures (a + c)[..d] == a[..d] && DashThenLetter(a + c, d)
    ensures Capture(a + c, d) == (Capture(a, d).0, Capture(a, d).1 + c)
  {
    CaptureAppendPrefix(a, c, d);
    CaptureAppendToken(a, c, d);
    CaptureAppendRest(a, c, d);
  }

  lemma {:induction false} CaptureAppendPrefix(a: string, c: string, d: nat)
    requires DashThenLetter(a, d)
    ensures (a + c)[..d] == a[..d] && DashThenLetter(a + c, d)
  {
    assert (a + c)[..d] == a[..d];
    assert (a + c)[d] == a[d] && (a + c)[d + 1] == a[d + 1];
  }

  lemma {:induction false} CaptureAppendToken(a: string, c: string, d: nat)
    requires 0 < d && DashThenLetter(a, d) && AllInClass(a[..d], Digit)
    requires c == [] || !IsLetter(c[0])
    requires (a + c)[..d] == a[..d] && DashThenLetter(a + c, d)
    ensures Capture(a + c, d).0 == Capture(a, d).0
  {
    var s := a + c;
    var k := d + 1 + RunLength(a[d + 1..], Letter);
    LetterRunAppend(a, c, d + 1);
    CaptureAt(a, d, k);
    CaptureAt(s, d, k);
    TakeAppend(a, c, d + 1, k);
  }

  lemma {:induction false} CaptureAppendRest(a: string, c: string, d: nat)
    requires 0 < d && DashThenLetter(a, d) && AllInClass(a[..d], Digit)
    requires c == [] || !IsLetter(c[0])
    requires (a + c)[..d] == a[..d] && DashThenLetter(a + c, d)
    ensures Capture(a + c, d).1 == Capture(a, d).1 + c
  {
    var s := a + c;
    var k := d + 1 + RunLength(a[d + 1..], Letter);
    LetterRunAppend(a, c, d + 1);
    CaptureAt(a, d, k);
    CaptureAt(s, d, k);
    DropAppend(a, c, k);
  }

  /** `Capture` spelled out with `k`, the end of the letter run, as a name of its own. */
  lemma CaptureAt(s: string, d: nat, k: nat)
    requires 0 < d && DashThenLetter(s, d) && AllInClass(s[..d], Digit)
    requires k == d + 1 + RunLength(s[d + 1..], Letter)
    ensures d + 1 <= k <= |s|
    ensures Capture(s, d) == (Token(DecimalValue(s[..d]), s[d + 1..k]), s[k..])
  {
  }

  /** The letter run starting at `j` in `a` is not extended by a `c` that starts with no letter. */
  lemma {:induction false} LetterRunAppend(a: string, c: string, j: nat)
    requires j <= |a|
    requires c == [] || !IsLetter(c[0])
    ensures RunLength((a + c)[j..], Letter) == RunLength(a[j..], Letter)
  {
    var tail := a[j..];
    assert (a + c)[j..] == tail + c;
    RunLengthAppend(tail, c, Letter);
    assert RunLength(c, Letter) == 0;
  }

  lemma TakeAppend<T>(a: seq<T>, c: seq<T>, i: nat, k: nat)
    requires i <= k <= |a|
    ensures (a + c)[i..k] == a[i..k]
  {
  }

  lemma DropAppend<T>(a: seq<T>, c: seq<T>, k: nat)
    requires k <= |a|
    ensures (a + c)[k..] == a[k..] + c
  {
  }

  /** Scanning `a + c` is scanning `a` and then `c`, when `a` is empty or ends in a letter and `c`
      is empty or does not start with a letter. */
  lemma {:induction false} FindAllAppend(a: string, c: string)
    requires a == [] || IsLetter(a[|a| - 1])
    requires c == [] || !IsLetter(c[0])
    ensures FindAll(a + c) == FindAll(a) + FindAll(c)
    decreases |a|
  {
    if a == [] {
      assert a + c == c;
    } else {
      MatchAtAppend(a, c);
      match MatchAt(a) {
        case Some((t, rest)) =>
          RestKeepsLastLetter(a);
          FindAllAppend(rest, c);
          FindAllAfterMatch(a, c, t, rest);
        case None =>
          FindAllAppend(a[1..], c);
          FindAllAfterMiss(a, c);
      }
    }
  }

  /** What follows a match is a suffix, so it still ends in the letter `a` ends in. */
  lemma {:induction false} RestKeepsLastLetter(a: string)
    requires a != [] && IsLetter(a[|a| - 1])
    ensures MatchAt(a).Some? ==> var rest := MatchAt(a).value.1; rest == [] || IsLetter(rest[|rest| - 1])
  {
    if MatchAt(a).Some? {
      var rest := MatchAt(a).value.1;
      assert rest == [] || rest[|rest| - 1] == a[|a| - 1];
    }
  }

  lemma {:induction false} FindAllAfterMatch(a: string, c: string, t: Token, rest: string)
    requires a != [] && MatchAt(a) == Some((t, rest)) && MatchAt(a + c) == Some((t, rest + c))
    requires FindAll(rest + c) == FindAll(rest) + FindAll(c)
    ensures FindAll(a + c) == FindAll(a) + FindAll(c)
  {
    FindAllWhenMatched(a, t, rest);
    FindAllWhenMatched(a + c, t, rest + c);
    AppendAssociative([t], FindAll(rest), FindAll(c));
  }

  lemma {:induction false} FindAllWhenMatched(s: string, t: Token, rest: string)
    requires MatchAt(s) == Some((t, rest))
    ensures FindAll(s) == [t] + FindAll(rest)
  {
  }

  lemma {:induction false} FindAllAfterMiss(a: string, c: string)
    requires a != [] && MatchAt(a) == None && MatchAt(a + c) == None
    requires FindAll(a[1..] + c) == FindAll(a[1..]) + FindAll(c)
    ensures FindAll(a + c) == FindAll(a) + FindAll(c)
  {
    FindAllMissAppend(a, c);
    FindAllOnMiss(a);
  }

  lemma {:induction false} FindAllMissAppend(a: string, c: string)
    requires a != [] && MatchAt(a + c) == None
    ensures FindAll(a + c) == FindAll(a[1..] + c)
  {
    assert (a + c)[1..] == a[1..] + c;
  }

  /** Joining two labels with a space joins their pairs, when the first label is empty or ends in a
      letter (the second label may start with anything). */
  lemma {:induction false} TokensOfJoin(a: string, b: string)
    requires a == [] || IsLetter(a[|a| - 1])
    ensures Tokens(a + " " + b) == Tokens(a) + Tokens(b)
  {
    var sa, sb := SpacesToDashes(a), SpacesToDashes(b);
    SpacesToDashesJoin(a, b);
    FindAllAppend(sa, "-" + sb);
    FindAllAfterDash(sb);
  }

  lemma {:induction false} SpacesToDashesJoin(a: string, b: string)
    ensures SpacesToDashes(a + " " + b) == SpacesToDashes(a) + ("-" + SpacesToDashes(b))
  {
    SpacesToDashesAppend(a + " ", b);
    SpacesToDashesAppend(a, " ");
    assert SpacesToDashes(" ") == "-";
    AppendAssociative(SpacesToDashes(a), "-", SpacesToDashes(b));
  }

  /** A separator dash starts no match. */
  lemma {:induction false} FindAllAfterDash(s: string)
    ensures FindAll("-" + s) == FindAll(s)
  {
    assert RunLength("-" + s, Digit) == 0;
    FindAllOnMiss("-" + s);
    assert ("-" + s)[1..] == s;
  }

  /** Additivity: the value of `a + " " + b` is the value of `a` plus the value of `b`
      ("1-Year 11-Month" is "1-Year" plus "11-Month"). */
  lemma {:induction false} Additivity(a: string, b: string)
    requires a == [] || IsLetter(a[|a| - 1])
    ensures TermYears(a + " " + b) == TermYears(a) + TermYears(b)
  {
    TokensOfJoin(a, b);
    SumYearsAppend(Tokens(a), Tokens(b));
  }

  // ---------------------------------------------------------------------------
  // Labels built from pairs: the scanner recovers exactly the pairs written

  function DigitChar(n: nat): (c: char)
    requires n < 10
    ensures IsDigit(c) && DigitValue(c) == n
  {
    (('0' as int) + n) as char
  }

  /** The decimal numeral of `n`, without leading zeros. */
  function DecimalString(n: nat): (s: string)
    ensures |s| > 0 && AllInClass(s, Digit)
  {
    if n < 10 then [DigitChar(n)] else DecimalString(n / 10) + [DigitChar(n % 10)]
  }

  lemma {:induction false} DecimalRoundTrip(n: nat)
    ensures DecimalValue(DecimalString(n)) == n
  {
    if n >= 10 {
      var s := DecimalString(n);
      assert s[..|s| - 1] == DecimalString(n / 10);
      DecimalRoundTrip(n / 10);
    }
  }

  /** The label of one pair, e.g. "11-Month". */
  function Label(t: Token): string {
    DecimalString(t.value) + ("-" + t.unit)
  }

  /** Pairs written as a maturity label, space separated, e.g. "1-Year 11-Month". */
  function Render(ts: seq<Token>): (s: string)
    ensures ts != [] && ts[|ts| - 1].unit != [] ==> s != [] && s[|s| - 1] == ts[|ts| - 1].unit[|ts[|ts| - 1].unit| - 1]
  {
    if |ts| == 0 then ""
    else if |ts| == 1 then Label(ts[0])
    else Render(ts[..|ts| - 1]) + " " + Label(ts[|ts| - 1])
  }

  lemma {:induction false} RunLengthAll(s: string, k: CharClass)
    requires AllInClass(s, k)
    ensures RunLength(s, k) == |s|
  {
  }

  /** A string without spaces is left as it is by the rewriting. */
  lemma {:induction false} NoSpaceUnchanged(s: string)
    requires ' ' !in s
    ensures SpacesToDashes(s) == s
  {
    assert forall i :: 0 <= i < |s| ==> SpacesToDashes(s)[i] == s[i] by {
      forall i | 0 <= i < |s| ensures SpacesToDashes(s)[i] == s[i] {
        assert s[i] in s;
      }
    }
  }

  lemma {:induction false} LabelHasNoSpace(t: Token)
    requires WellFormed(t)
    ensures ' ' !in Label(t)
  {
  }

  lemma {:induction false} MatchLabel(t: Token)
    requires WellFormed(t)
    ensures MatchAt(Label(t)) == Some((t, []))
  {
    var digits, tail := DecimalString(t.value), "-" + t.unit;
    var s := digits + tail;
    var d := |digits|;
    RunLengthAll(digits, Digit);
    RunLengthAppend(digits, tail, Digit);
    assert RunLength(tail, Digit) == 0;
    assert RunLength(s, Digit) == d;
    assert s[d] == '-' && s[d + 1] == t.unit[0];
    assert s[..d] == digits;
    RunPrefix(s, Digit);
    CaptureLabel(t);
  }

  lemma {:induction false} CaptureLabel(t: Token)
    requires WellFormed(t)
    ensures var s, d := Label(t), |DecimalString(t.value)|;
      && 0 < d && DashThenLetter(s, d) && s[..d] == DecimalString(t.value) && AllInClass(s[..d], Digit)
      && Capture(s, d) == (t, [])
  {
    var digits := DecimalString(t.value);
    var s, d := Label(t), |digits|;
    assert s == digits + ("-" + t.unit);
    assert s[..d] == digits;
    assert s[d] == '-' && s[d + 1] == t.unit[0];
    assert s[d + 1..] == t.unit;
    RunLengthAll(t.unit, Letter);
    DecimalRoundTrip(t.value);
    CaptureAt(s, d, d + 1 + |t.unit|);
    assert |s| == d + 1 + |t.unit|;
    assert s[d + 1..d + 1 + |t.unit|] == t.unit;
    assert s[d + 1 + |t.unit|..] == [];
  }

  lemma {:induction false} LabelTokens(t: Token)
    requires WellFormed(t)
    ensures Tokens(Label(t)) == [t]
  {
    LabelHasNoSpace(t);
    NoSpaceUnchanged(Label(t));
    MatchLabel(t);
    FindAllWhenMatched(Label(t), t, []);
  }

  /** Round trip: scanning a rendered label yields exactly the pairs it was rendered from. */
  lemma {:induction false} TokensOfRender(ts: seq<Token>)
    requires forall i :: 0 <= i < |ts| ==> WellFormed(ts[i])
    ensures Tokens(Render(ts)) == ts
    decreases |ts|
  {
    if |ts| == 0 {
    } else if |ts| == 1 {
      LabelTokens(ts[0]);
    } else {
      var init, last := ts[..|ts| - 1], ts[|ts| - 1];
      assert forall i :: 0 <= i < |init| ==> init[i] == ts[i];
      assert ts == init + [last];
      TokensOfRender(init);
      RenderSnoc(ts, init, last);
      TokensOfRenderStep(Render(ts), init, last);
    }
  }

  lemma {:induction false} TokensOfRenderStep(s: string, init: seq<Token>, last: Token)
    requires init != [] && s == Render(init) + " " + Label(last)
    requires WellFormed(init[|init| - 1]) && WellFormed(last) && Tokens(Render(init)) == init
    ensures Tokens(s) == init + [last]
  {
    RenderEndsInLetter(init);
    LabelTokens(last);
    JoinStep(Render(init), Label(last), init, [last]);
  }

  lemma {:induction false} JoinStep(a: string, b: string, x: seq<Token>, y: seq<Token>)
    requires a == [] || IsLetter(a[|a| - 1])
    requires Tokens(a) == x && Tokens(b) == y
    ensures Tokens(a + " " + b) == x + y
  {
    TokensOfJoin(a, b);
  }

  lemma {:induction false} RenderSnoc(ts: seq<Token>, init: seq<Token>, last: Token)
    requires |ts| >= 2 && init == ts[..|ts| - 1] && last == ts[|ts| - 1]
    ensures Render(ts) == Render(init) + " " + Label(last)
  {
  }

  lemma {:induction false} RenderEndsInLetter(ts: seq<Token>)
    requires ts != [] && WellFormed(ts[|ts| - 1])
    ensures Render(ts) != [] && IsLetter(Render(ts)[|Render(ts)| - 1])
  {
    var u := ts[|ts| - 1].unit;
    assert InClass(u[|u| - 1], Letter);
  }

  /** The value of a rendered label is the sum of its pairs' contributions. */
  lemma {:induction false} RenderYears(ts: seq<Token>)
    requires forall i :: 0 <= i < |ts| ==> WellFormed(ts[i])
    ensures TermYears(Render(ts)) == SumYears(ts)
  {
    TokensOfRender(ts);
  }

  /** The unit words of the pattern examples are told apart by their first letters. */
  lemma {:induction false} DayYears(n: nat)
    ensures TokenYears(Token(n, "Day")) == (n as real) / 365.0
  {
    assert Contains("Day", "Day");
  }

  lemma {:induction false} WeekYears(n: nat)
    ensures TokenYears(Token(n, "Week")) == (n as real) / 52.0
  {
    if Contains("Week", "Day") { ContainsFirstChar("Week", "Day"); }
    assert Contains("Week", "Week");
  }

  lemma {:induction false} MonthYears(n: nat)
    ensures TokenYears(Token(n, "Month")) == (n as real) / 12.0
  {
    if Contains("Month", "Day") { ContainsFirstChar("Month", "Day"); }
    if Contains("Month", "Week") { ContainsFirstChar("Month", "Week"); }
    assert Contains("Month", "Month");
  }

  lemma {:induction false} YearYears(n: nat)
    ensures TokenYears(Token(n, "Year")) == n as real
  {
    if Contains("Year", "Day") { ContainsFirstChar("Year", "Day"); }
    if Contains("Year", "Week") { ContainsFirstChar("Year", "Week"); }
    if Contains("Year", "Month") { ContainsFirstChar("Year", "Month"); }
    assert Contains("Year", "Year");
  }

  /** A whole number of years, "n-Year", is worth n. */
  lemma {:induction false} WholeYears(n: nat)
    ensures TermYears(DecimalString(n) + "-Year") == n as real
  {
    var t := Token(n, "Year");
    assert Render([t]) == DecimalString(n) + "-Year";
    assert WellFormed(t);
    RenderYears([t]);
    YearYears(n);
    assert SumYears([t]) == SumYears([]) + TokenYears(t);
  }

  /** "4-Week" is 4/52 of a year. */
  lemma {:induction false} FourWeeks()
    ensures Tokens("4-Week") == [Token(4, "Week")]
    ensures TermYears("4-Week") == 4.0 / 52.0
  {
    var t := Token(4, "Week");
    assert Render([t]) == "4-Week";
    assert WellFormed(t);
    TokensOfRender([t]);
    WeekYears(4);
    assert SumYears([t]) == SumYears([]) + TokenYears(t);
  }

  /** "1-Year 11-Month" is 1 + 11/12 years. */
  lemma {:induction false} OneYearElevenMonths()
    ensures Tokens("1-Year 11-Month") == [Token(1, "Year"), Token(11, "Month")]
    ensures TermYears("1-Year 11-Month") == 1.0 + 11.0 / 12.0
  {
    var y, m := Token(1, "Year"), Token(11, "Month");
    OneYearElevenMonthsLabel();
    assert WellFormed(y) && WellFormed(m);
    TokensOfRender([y, m]);
    YearYears(1);
    MonthYears(11);
    assert [y, m][..1] == [y];
    assert SumYears([y]) == SumYears([]) + TokenYears(y);
  }

  lemma {:induction false} OneYearElevenMonthsLabel()
    ensures Render([Token(1, "Year"), Token(11, "Month")]) == "1-Year 11-Month"
  {
    var y, m := Token(1, "Year"), Token(11, "Month");
    YearLabel();
    MonthLabel();
    assert [y, m][..1] == [y];
    assert Render([y, m]) == Render([y]) + " " + Label(m);
  }

  lemma YearLabel()
    ensures Label(Token(1, "Year")) == "1-Year"
  {
    assert DecimalString(1) == "1";
  }

  lemma MonthLabel()
    ensures Label(Token(11, "Month")) == "11-Month"
  {
    assert DecimalString(11) == "11";
  }
}
