/**
 * Parsing of an HTTP Accept-Language header (section 14.4 of RFC 2616) into
 * a dictionary from normalised locale tag to integer weight, shared by both
 * i18n modules. The two modules differ only in the qvalue part of their
 * pattern, which is the `QGrammar` parameter here.
 *
 * The pattern is `([a-zA-Z]{1,8}(-[a-zA-Z0-9]{1,8})?)\s*(;\s*q\s*=\s*QVALUE)?`.
 * Everything after the first letter is optional, so a match starting at a
 * letter always succeeds and each greedy piece keeps its longest run: the
 * scanner below takes maximal runs and never backtracks, and a search for
 * the next match resumes at the first letter after the previous match.
 */
module AcceptLanguage {
  import opened Wrappers
  import opened Text
  import opened Web

  /** The two spellings of QVALUE. */
  datatype QGrammar =
    | OneOrZeroWithFraction   // `(1|0)(\.[0-9]+)?`
    | OneOrZeroPointDigits    // `1|0\.[0-9]+`

  /** One match: group 1 (the language tag) and group 4 (the qvalue, when it matched). */
  datatype Match = Match(tag: string, q: Option<string>)

  predicate AllIn(s: string, p: char -> bool) {
    forall i :: 0 <= i < |s| ==> p(s[i])
  }

  predicate IsUpperOrDigit(c: char) { IsUpper(c) || IsDigit(c) }

  // ---------------------------------------------------------------------
  // Shapes of what the pattern captures

  /** Group 1: 1 to 8 letters, optionally `-` and 1 to 8 letters or digits. */
  predicate IsRawTag(t: string) {
    match IndexOf(t, '-')
    case None => 1 <= |t| <= 8 && AllIn(t, IsLetter)
    case Some(k) => 1 <= k <= 8 && 1 <= |t| - k - 1 <= 8 && AllIn(t[..k], IsLetter) && AllIn(t[k + 1..], IsAlnum)
  }

  /** A decimal `d` or `d.ddd…` with at least one fraction digit. */
  predicate IsDecimal(q: string) {
    |q| >= 1 && IsDigit(q[0]) && (|q| == 1 || (|q| >= 3 && q[1] == '.' && AllIn(q[2..], IsDigit)))
  }

  /** The strings group 4 can capture under each grammar. */
  predicate IsQValue(g: QGrammar, q: string) {
    match g
    case OneOrZeroWithFraction => IsDecimal(q) && (q[0] == '0' || q[0] == '1')
    case OneOrZeroPointDigits => q == "1" || (IsDecimal(q) && q[0] == '0' && |q| >= 3)
  }

  // ---------------------------------------------------------------------
  // The scanner

  /** The character classes the pattern repeats: `[a-zA-Z]`, `[a-zA-Z0-9]`, `[0-9]` and `\s`. */
  datatype CharClass = Letters | Alnums | Digits | Spaces

  predicate InClass(c: CharClass, ch: char) {
    match c
    case Letters => IsLetter(ch)
    case Alnums => IsAlnum(ch)
    case Digits => IsDigit(ch)
    case Spaces => IsSpace(ch)
  }

  /** Length of the longest run of class-`c` characters starting at `i`, at most `limit`. */
  function Run(s: string, i: nat, c: CharClass, limit: nat): (n: nat)
    requires i <= |s|
    ensures i + n <= |s| && n <= limit
    ensures forall k :: i <= k < i + n ==> InClass(c, s[k])
    ensures i + n < |s| && n < limit ==> !InClass(c, s[i + n])
    decreases limit
  {
    if limit == 0 || i == |s| || !InClass(c, s[i]) then 0 else 1 + Run(s, i + 1, c, limit - 1)
  }

  /** `i` advanced past any `\s*`. */
  function SkipSpace(s: string, i: nat): (j: nat)
    requires i <= |s|
    ensures i <= j <= |s|
    ensures j < |s| ==> !IsSpace(s[j])
  {
    i + Run(s, i, Spaces, |s|)
  }

  lemma {:induction false} IndexOfAt(s: string, c: char, k: nat)
    requires k < |s| && s[k] == c && c !in s[..k]
    ensures IndexOf(s, c) == Some(k)
  {
    assert c in s;
  }

  lemma {:induction false} LettersHaveNo(t: string, c: char)
    requires AllIn(t, IsLetter) && !IsLetter(c)
    ensures c !in t
  {
  }

  /** Letters, `-`, then letters or digits, with both parts of length 1 to 8, form a captured tag. */
  lemma {:induction false} DashedRawTag(t: string, k: nat)
    requires 1 <= k <= 8 && k < |t| && 1 <= |t| - k - 1 <= 8
    requires AllIn(t[..k], IsLetter) && t[k] == '-' && AllIn(t[k + 1..], IsAlnum)
    ensures IsRawTag(t)
  {
    LettersHaveNo(t[..k], '-');
    IndexOfAt(t, '-', k);
  }

  /** A run of `p` characters in `s` from `i` to `j`, as a predicate on the slice. */
  lemma {:induction false} RunSlice(s: string, i: nat, j: nat, p: char -> bool)
    requires i <= j <= |s|
    requires forall k :: i <= k < j ==> p(s[k])
    ensures AllIn(s[i..j], p)
  {
    forall k | 0 <= k < j - i
      ensures p(s[i..j][k])
    {
      assert s[i..j][k] == s[i + k];
    }
  }

  /** End of group 1 for a match that starts at the letter `s[i]`. */
  function TagEnd(s: string, i: nat): (j: nat)
    requires i < |s| && IsLetter(s[i])
    ensures i < j <= |s|
  {
    var a := i + Run(s, i, Letters, 8);
    if a + 1 < |s| && s[a] == '-' && IsAlnum(s[a + 1]) then a + 1 + Run(s, a + 1, Alnums, 8)
    else a
  }

  /** Group 1 captured at a letter has the shape `IsRawTag` describes. */
  lemma {:induction false} TagEndRaw(s: string, i: nat)
    requires i < |s| && IsLetter(s[i])
    ensures IsRawTag(s[i..TagEnd(s, i)])
  {
    var a := i + Run(s, i, Letters, 8);
    if a + 1 < |s| && s[a] == '-' && IsAlnum(s[a + 1]) {
      TagEndRawDashed(s, i, a);
    } else {
      TagEndRawPlain(s, i, a);
    }
  }

  lemma {:induction false} TagEndRawDashed(s: string, i: nat, a: nat)
    requires i < |s| && IsLetter(s[i]) && a == i + Run(s, i, Letters, 8)
    requires a + 1 < |s| && s[a] == '-' && IsAlnum(s[a + 1])
    ensures IsRawTag(s[i..TagEnd(s, i)])
  {
    var j := a + 1 + Run(s, a + 1, Alnums, 8);
    TagEndDashedAt(s, i, a, j);
    RunsRaw(s, i, a, j);
  }

  /** Where group 1 ends when no `-` and alphanumeric follow the letters. */
  lemma {:induction false} TagEndPlainAt(s: string, i: nat, a: nat)
    requires i < |s| && IsLetter(s[i]) && a == i + Run(s, i, Letters, 8)
    requires !(a + 1 < |s| && s[a] == '-' && IsAlnum(s[a + 1]))
    ensures TagEnd(s, i) == a
  {
  }

  /** Where group 1 ends once both runs of a dashed tag are known. */
  lemma {:induction false} TagEndDashedAt(s: string, i: nat, a: nat, j: nat)
    requires i < |s| && IsLetter(s[i]) && a == i + Run(s, i, Letters, 8)
    requires a + 1 < |s| && s[a] == '-' && IsAlnum(s[a + 1])
    requires j == a + 1 + Run(s, a + 1, Alnums, 8)
    ensures TagEnd(s, i) == j
  {
  }

  lemma {:induction false} TagEndRawPlain(s: string, i: nat, a: nat)
    requires i < |s| && IsLetter(s[i]) && a == i + Run(s, i, Letters, 8)
    requires !(a + 1 < |s| && s[a] == '-' && IsAlnum(s[a + 1]))
    ensures IsRawTag(s[i..TagEnd(s, i)])
  {
    TagEndPlainAt(s, i, a);
    RunSlice(s, i, a, IsLetter);
    PlainTagEnd(s, i, a);
  }

  /** A run of letters, `-`, then a run of letters or digits is a captured tag. */
  lemma {:induction false} RunsRaw(s: string, i: nat, a: nat, j: nat)
    requires i < |s| && IsLetter(s[i]) && a == i + Run(s, i, Letters, 8)
    requires a + 1 < |s| && s[a] == '-' && IsAlnum(s[a + 1])
    requires j == a + 1 + Run(s, a + 1, Alnums, 8)
    ensures IsRawTag(s[i..j])
  {
    RunSlice(s, i, a, IsLetter);
    RunSlice(s, a + 1, j, IsAlnum);
    DashedTagEnd(s, i, a, j);
  }

  lemma {:induction false} PlainTagEnd(s: string, i: nat, a: nat)
    requires i < a <= |s| && a - i <= 8 && AllIn(s[i..a], IsLetter)
    ensures IsRawTag(s[i..a])
  {
    LettersHaveNo(s[i..a], '-');
    assert IndexOf(s[i..a], '-') == None;
  }

  lemma {:induction false} DashedTagEnd(s: string, i: nat, a: nat, j: nat)
    requires i < a < j <= |s| && a - i <= 8 && j - a - 1 <= 8 && a + 1 < j
    requires AllIn(s[i..a], IsLetter) && s[a] == '-' && AllIn(s[a + 1..j], IsAlnum)
    ensures IsRawTag(s[i..j])
  {
    var t := s[i..j];
    assert t[..a - i] == s[i..a];
    assert t[a - i + 1..] == s[a + 1..j];
    DashedRawTag(t, a - i);
  }

  /** End of QVALUE when it matches at `p`. */
  function QValueEnd(s: string, p: nat, g: QGrammar): (r: Option<nat>)
    requires p <= |s|
    ensures r.Some? ==> p < r.value <= |s| && IsQValue(g, s[p..r.value])
  {
    if p == |s| then None
    else match g
      case OneOrZeroWithFraction =>
        if s[p] != '1' && s[p] != '0' then None
        else if p + 2 < |s| && s[p + 1] == '.' && IsDigit(s[p + 2]) then
          var e := p + 2 + Run(s, p + 2, Digits, |s|);
          assert s[p..e][2..] == s[p + 2..e];
          Some(e)
        else Some(p + 1)
      case OneOrZeroPointDigits =>
        if s[p] == '1' then
          assert s[p..p + 1] == "1";
          Some(p + 1)
        else if p + 2 < |s| && s[p] == '0' && s[p + 1] == '.' && IsDigit(s[p + 2]) then
          var e := p + 2 + Run(s, p + 2, Digits, |s|);
          assert s[p..e][2..] == s[p + 2..e];
          Some(e)
        else None
  }

  /** The optional group `;\s*q\s*=\s*QVALUE` at `j`: the captured qvalue and where the group ends. */
  function QGroup(s: string, j: nat, g: QGrammar): (r: Option<(string, nat)>)
    requires j <= |s|
    ensures r.Some? ==> j < r.value.1 <= |s| && IsQValue(g, r.value.0)
  {
    if j < |s| && s[j] == ';' then
      var a := SkipSpace(s, j + 1);
      if a < |s| && s[a] == 'q' then
        var b := SkipSpace(s, a + 1);
        if b < |s| && s[b] == '=' then
          var c := SkipSpace(s, b + 1);
          match QValueEnd(s, c, g)
          case Some(e) => Some((s[c..e], e))
          case None => None
        else None
      else None
    else None
  }

  /** A match whose tag and qvalue are strings the pattern can capture under the grammar `g`. */
  predicate Captured(g: QGrammar, m: Match) {
    IsRawTag(m.tag) && (m.q.Some? ==> IsQValue(g, m.q.value))
  }

  predicate AllCaptured(g: QGrammar, ms: seq<Match>) {
    forall k :: 0 <= k < |ms| ==> Captured(g, ms[k])
  }

  lemma {:induction false} CapturedCons(g: QGrammar, m: Match, ms: seq<Match>)
    requires Captured(g, m) && AllCaptured(g, ms)
    ensures AllCaptured(g, [m] + ms)
  {
    forall k | 0 <= k < |[m] + ms|
      ensures Captured(g, ([m] + ms)[k])
    {
      if k > 0 {
        assert ([m] + ms)[k] == ms[k - 1];
      }
    }
  }

  lemma {:induction false} CapturedTail(g: QGrammar, ms: seq<Match>)
    requires ms != [] && AllCaptured(g, ms)
    ensures Captured(g, ms[0]) && AllCaptured(g, ms[1..])
  {
    forall k | 0 <= k < |ms[1..]|
      ensures Captured(g, ms[1..][k])
    {
      assert ms[1..][k] == ms[k + 1];
    }
  }

  /** The match starting at the letter `s[i]` and the position after it. */
  function MatchAt(s: string, i: nat, g: QGrammar): (r: (Match, nat))
    requires i < |s| && IsLetter(s[i])
    ensures i < r.1 <= |s|
    ensures Captured(g, r.0)
  {
    var t := TagEnd(s, i);
    TagEndRaw(s, i);
    var w := SkipSpace(s, t);
    match QGroup(s, w, g)
    case Some((q, e)) => (Match(s[i..t], Some(q)), e)
    case None => (Match(s[i..t], None), w)
  }

  /** `re.finditer(pattern, s[i..])`: every match, left to right. */
  function Scan(s: string, i: nat, g: QGrammar): (ms: seq<Match>)
    requires i <= |s|
    ensures AllCaptured(g, ms)
    decreases |s| - i
  {
    if i == |s| then []
    else if IsLetter(s[i]) then
      var (m, e) := MatchAt(s, i, g);
      var rest := Scan(s, e, g);
      CapturedCons(g, m, rest);
      [m] + rest
    else Scan(s, i + 1, g)
  }

  // ---------------------------------------------------------------------
  // Tag normalisation and weights

  /** The second field of `l.split('_')`, given the first `_` is at `k`. */
  function SecondField(l: string, k: nat): string
    requires k < |l|
  {
    var rest := l[k + 1..];
    match IndexOf(rest, '_')
    case None => rest
    case Some(k2) => rest[..k2]
  }

  /**
   * Group 1 with `-` replaced by `_`; a 2-character tag is lower-cased, a
   * 5-character tag `a_b` becomes `lower(a) + "_" + upper(b)` (and raises
   * IndexError when it has no `_`), any other length is dropped (`None`).
   */
  function NormaliseTag(raw: string): (r: Result<Option<string>, Fault>)
    ensures r.Failure? <==> |raw| == 5 && '-' !in raw && '_' !in raw
    ensures r.Failure? ==> r.error == IndexError
    ensures r == Success(None) <==> |raw| != 2 && |raw| != 5
    ensures |raw| == 2 && '-' !in raw ==> r == Success(Some(Lower(raw)))
  {
    var l := ReplaceChar(raw, '-', '_');
    assert '_' in l <==> '-' in raw || '_' in raw by {
      if '_' in l {
        var i :| 0 <= i < |l| && l[i] == '_';
        assert raw[i] == '-' || raw[i] == '_';
      }
      if '-' in raw {
        var i :| 0 <= i < |raw| && raw[i] == '-';
        assert l[i] == '_';
      }
      if '_' in raw {
        var i :| 0 <= i < |raw| && raw[i] == '_';
        assert l[i] == '_';
      }
    }
    if |l| == 2 then
      assert '-' !in raw ==> l == raw;
      Success(Some(Lower(l)))
    else if |l| == 5 then
      match IndexOf(l, '_')
      case None => Failure(IndexError)
      case Some(k) => Success(Some(Lower(l[..k]) + "_" + Upper(SecondField(l, k))))
    else Success(None)
  }

  /** The normalised locale tags: `ll`, or `l_R` with 1 to 3 lower-case letters and upper-case letters or digits. */
  predicate IsLocaleKey(t: string) {
    (|t| == 2 && AllIn(t, IsLower))
    || (|t| == 5 && match IndexOf(t, '_')
          case None => false
          case Some(k) => 1 <= k <= 3 && AllIn(t[..k], IsLower) && AllIn(t[k + 1..], IsUpperOrDigit))
  }

  /** A 2-letter captured tag is lower-cased, and the result is a locale key. */
  lemma {:induction false} NormaliseTwoLetters(raw: string)
    requires IsRawTag(raw) && |raw| == 2
    ensures NormaliseTag(raw) == Success(Some(Lower(raw)))
    ensures IsLocaleKey(Lower(raw))
  {
    match IndexOf(raw, '-')
    case None =>
      assert AllIn(Lower(raw), IsLower);
    case Some(k) =>
      assert false;
  }

  /** Five letters without `-` make `split('_')[1]` raise IndexError. */
  lemma {:induction false} NormaliseFiveLetters(raw: string)
    requires IsRawTag(raw) && |raw| == 5 && '-' !in raw
    ensures NormaliseTag(raw) == Failure(IndexError)
  {
    assert IndexOf(raw, '-') == None;
    LettersHaveNo(raw, '_');
  }

  /** A 5-character captured tag with `-` at `k`: the parts around the dash, with `_` at the dash. */
  lemma {:induction false} DashSplit(raw: string, k: nat)
    requires IsRawTag(raw) && k < |raw| && raw[k] == '-'
    ensures IndexOf(raw, '-') == Some(k)
    ensures AllIn(raw[..k], IsLetter) && AllIn(raw[k + 1..], IsAlnum)
    ensures '_' !in raw[..k] && '_' !in raw[k + 1..]
  {
    match IndexOf(raw, '-')
    case None =>
      assert false;
    case Some(k0) =>
      LettersHaveNo(raw[..k], '_');
  }

  /**
   * A 5-character captured tag with `-` at `k` becomes the lower-cased part
   * before it, `_`, and the upper-cased part after it (so `es-es` gives
   * `es_ES`), which is a locale key.
   */
  lemma {:induction false} NormaliseFiveWithDash(raw: string, k: nat)
    requires IsRawTag(raw) && |raw| == 5 && k < 5 && raw[k] == '-'
    ensures NormaliseTag(raw) == Success(Some(Lower(raw[..k]) + "_" + Upper(raw[k + 1..])))
    ensures IsLocaleKey(Lower(raw[..k]) + "_" + Upper(raw[k + 1..]))
  {
    DashSplit(raw, k);
    var l := ReplaceChar(raw, '-', '_');
    assert l[..k] == raw[..k];
    assert l[k + 1..] == raw[k + 1..];
    IndexOfAt(l, '_', k);
    assert IndexOf(l[k + 1..], '_') == None;
    assert SecondField(l, k) == raw[k + 1..];
    var t := Lower(raw[..k]) + "_" + Upper(raw[k + 1..]);
    assert t[..k] == Lower(raw[..k]);
    assert t[k + 1..] == Upper(raw[k + 1..]);
    assert AllIn(t[..k], IsLower);
    assert AllIn(t[k + 1..], IsUpperOrDigit);
    LettersHaveNo(raw[..k], '_');
    assert '_' !in t[..k];
    IndexOfAt(t, '_', k);
  }

  /** Every tag normalisation keeps from a captured tag is a locale key. */
  lemma {:induction false} NormalisedIsLocaleKey(raw: string)
    requires IsRawTag(raw)
    ensures NormaliseTag(raw).Failure? ==> NormaliseTag(raw).error == IndexError
    ensures NormaliseTag(raw).Success? && NormaliseTag(raw).value.Some? ==> IsLocaleKey(NormaliseTag(raw).value.value)
  {
    if |raw| == 2 {
      NormaliseTwoLetters(raw);
    } else if |raw| == 5 {
      match IndexOf(raw, '-')
      case None =>
      case Some(k) =>
        NormaliseFiveWithDash(raw, k);
    }
  }

  function DigitValue(c: char): nat {
    if IsDigit(c) then c as int - '0' as int else 0
  }

  /**
   * `int(100 * float(q))`, read off the decimal digits: the integer digit
   * times 100 plus the first two fraction digits.
   */
  function Centi(q: string): nat {
    if |q| == 0 then 0
    else
      var tenths := if |q| >= 3 then DigitValue(q[2]) else 0;
      var hundredths := if |q| >= 4 then DigitValue(q[3]) else 0;
      DigitValue(q[0]) * 100 + tenths * 10 + hundredths
  }

  /** The weight of a match: 100 when it has no qvalue. */
  function Weight(q: Option<string>): (w: nat)
    ensures q.None? ==> w == 100
  {
    match q
    case None => 100
    case Some(v) => Centi(v)
  }

  /** The exact value of the fraction digits `ds` read as `0.ds`. */
  ghost function FractionValue(ds: string): real {
    if ds == [] then 0.0 else (DigitValue(ds[0]) as real + FractionValue(ds[1..])) / 10.0
  }

  /** The exact value of a decimal qvalue. */
  ghost function DecimalValue(q: string): real
    requires IsDecimal(q)
  {
    DigitValue(q[0]) as real + (if |q| == 1 then 0.0 else FractionValue(q[2..]))
  }

  lemma {:induction false} FractionValueBounds(ds: string)
    requires AllIn(ds, IsDigit)
    ensures 0.0 <= FractionValue(ds) < 1.0
  {
    if ds != [] {
      assert AllIn(ds[1..], IsDigit);
      FractionValueBounds(ds[1..]);
      assert DigitValue(ds[0]) <= 9;
    }
  }

  /** The digit-string weight is the exact `floor(100 * q)` of the qvalue. */
  lemma {:induction false} CentiIsFloor(q: string)
    requires IsDecimal(q)
    ensures Centi(q) == (100.0 * DecimalValue(q)).Floor
  {
    var d0 := DigitValue(q[0]) as real;
    if |q| == 1 {
      assert 100.0 * DecimalValue(q) == (100 * DigitValue(q[0])) as real;
    } else {
      var ds := q[2..];
      assert ds[0] == q[2];
      assert AllIn(ds[1..], IsDigit);
      FractionValueBounds(ds[1..]);
      var d1 := DigitValue(q[2]) as real;
      if |q| == 3 {
        assert ds[1..] == [];
        assert 100.0 * DecimalValue(q) == 100.0 * d0 + 10.0 * d1;
      } else {
        var t := ds[2..];
        assert ds[1..][1..] == t;
        assert ds[1..][0] == q[3];
        assert AllIn(t, IsDigit);
        FractionValueBounds(t);
        var d2 := DigitValue(q[3]) as real;
        assert FractionValue(ds) == (d1 + (d2 + FractionValue(t)) / 10.0) / 10.0;
        assert 100.0 * DecimalValue(q) == (100.0 * d0 + 10.0 * d1 + d2) + FractionValue(t);
      }
    }
  }

  /** The largest weight each grammar can produce. */
  function MaxWeight(g: QGrammar): nat {
    match g
    case OneOrZeroWithFraction => 199
    case OneOrZeroPointDigits => 100
  }

  /** Every qvalue the grammar captures yields a weight of at most `MaxWeight(g)`. */
  lemma {:induction false} QValueWeightBound(g: QGrammar, q: string)
    requires IsQValue(g, q)
    ensures Centi(q) <= MaxWeight(g)
    ensures g == OneOrZeroPointDigits && q != "1" ==> Centi(q) <= 99
  {
    if |q| >= 3 {
      assert IsDigit(q[2]);
    }
    if |q| >= 4 {
      assert q[2..][1] == q[3];
    }
  }

  // ---------------------------------------------------------------------
  // The dictionary

  /** The (tag, weight) assignments `res[l] = w` the loop performs, in order, or the exception it raises. */
  function Entries(ms: seq<Match>): (r: Result<seq<(string, nat)>, Fault>)
    ensures r.Failure? <==> exists k :: 0 <= k < |ms| && NormaliseTag(ms[k].tag).Failure?
    ensures r.Success? ==> |r.value| <= |ms|
  {
    if ms == [] then Success([])
    else
      var rest := Entries(ms[1..]);
      assert (exists k :: 0 <= k < |ms[1..]| && NormaliseTag(ms[1..][k].tag).Failure?)
        <==> (exists k :: 1 <= k < |ms| && NormaliseTag(ms[k].tag).Failure?) by {
        if exists k :: 1 <= k < |ms| && NormaliseTag(ms[k].tag).Failure? {
          var k :| 1 <= k < |ms| && NormaliseTag(ms[k].tag).Failure?;
          assert ms[1..][k - 1] == ms[k];
        }
      }
      match NormaliseTag(ms[0].tag)
      case Failure(e) => Failure(e)
      case Success(None) => rest
      case Success(Some(t)) =>
        match rest
        case Failure(e) => Failure(e)
        case Success(es) => Success([(t, Weight(ms[0].q))] + es)
  }

  /** The dictionary after the assignments `es`, performed in order. */
  function Dict(es: seq<(string, nat)>): map<string, nat> {
    if es == [] then map[]
    else Dict(es[..|es| - 1])[es[|es| - 1].0 := es[|es| - 1].1]
  }

  /** A key is in the dictionary iff some assignment wrote it, and it holds the value of the last such assignment. */
  lemma {:induction false} DictLastWins(es: seq<(string, nat)>, t: string)
    ensures t in Dict(es) <==> exists k :: 0 <= k < |es| && es[k].0 == t
    ensures t in Dict(es) ==>
              exists k :: 0 <= k < |es| && es[k].0 == t && Dict(es)[t] == es[k].1
                          && forall k' :: k < k' < |es| ==> es[k'].0 != t
  {
    if es != [] {
      var init := es[..|es| - 1];
      DictLastWins(init, t);
      if es[|es| - 1].0 != t && t in Dict(es) {
        var k :| 0 <= k < |init| && init[k].0 == t && Dict(init)[t] == init[k].1
          && forall k' :: k < k' < |init| ==> init[k'].0 != t;
        assert es[k] == init[k];
      }
      if exists k :: 0 <= k < |es| && es[k].0 == t {
        var k :| 0 <= k < |es| && es[k].0 == t;
        if k < |init| {
          assert init[k].0 == t;
        }
      }
      if exists k :: 0 <= k < |init| && init[k].0 == t {
        var k :| 0 <= k < |init| && init[k].0 == t;
        assert es[k].0 == t;
      }
    }
  }

  /** The match's tag survives normalisation as the dictionary key `t`. */
  predicate NormalisesTo(m: Match, t: string) {
    NormaliseTag(m.tag) == Success(Some(t))
  }

  /** The loop's first iteration: the first match, then the rest. */
  lemma {:induction false} EntriesCons(ms: seq<Match>)
    requires ms != []
    ensures NormaliseTag(ms[0].tag).Failure? ==> Entries(ms).Failure?
    ensures NormaliseTag(ms[0].tag) == Success(None) ==> Entries(ms) == Entries(ms[1..])
    ensures NormaliseTag(ms[0].tag).Success? && NormaliseTag(ms[0].tag).value.Some? ==>
              (Entries(ms[1..]).Failure? ==> Entries(ms).Failure?)
              && (Entries(ms[1..]).Success? ==>
                    Entries(ms) == Success([(NormaliseTag(ms[0].tag).value.value, Weight(ms[0].q))] + Entries(ms[1..]).value))
  {
  }

  /** One more match appends its assignment, if its tag is kept, to the loop's assignments. */
  lemma {:induction false} EntriesSnoc(ms: seq<Match>, m: Match)
    ensures Entries(ms + [m]).Success? <==> Entries(ms).Success? && NormaliseTag(m.tag).Success?
    ensures Entries(ms).Success? && NormaliseTag(m.tag) == Success(None) ==> Entries(ms + [m]) == Entries(ms)
    ensures Entries(ms).Success? && NormaliseTag(m.tag).Success? && NormaliseTag(m.tag).value.Some? ==>
              Entries(ms + [m]) == Success(Entries(ms).value + [(NormaliseTag(m.tag).value.value, Weight(m.q))])
    decreases |ms|
  {
    if ms == [] {
      assert ms + [m] == [m] && [m][1..] == [];
      EntriesCons([m]);
      assert Entries([m][1..]) == Success([]) && Entries(ms) == Success([]);
      var n := NormaliseTag(m.tag);
      if n.Success? && n.value.Some? {
        var x := (n.value.value, Weight(m.q));
        assert Entries([m]) == Success([x] + []);
        assert [x] + [] == [] + [x];
      }
    } else {
      var ms1 := ms + [m];
      assert ms1[0] == ms[0];
      assert ms1[1..] == ms[1..] + [m];
      EntriesSnoc(ms[1..], m);
      EntriesCons(ms);
      EntriesCons(ms1);
      var n := NormaliseTag(m.tag);
      if NormaliseTag(ms[0].tag).Success? && NormaliseTag(ms[0].tag).value.Some?
         && Entries(ms[1..]).Success? && n.Success? && n.value.Some? {
        var head := (NormaliseTag(ms[0].tag).value.value, Weight(ms[0].q));
        var es := Entries(ms[1..]).value;
        var x := (n.value.value, Weight(m.q));
        assert [head] + (es + [x]) == ([head] + es) + [x];
      }
    }
  }

  /** The position of the last match that yields the key `t`, if any. */
  function LastKept(ms: seq<Match>, t: string): (r: Option<nat>)
    ensures r.Some? ==> r.value < |ms| && NormalisesTo(ms[r.value], t)
    ensures r.Some? ==> forall k :: r.value < k < |ms| ==> !NormalisesTo(ms[k], t)
    ensures r.None? ==> forall k :: 0 <= k < |ms| ==> !NormalisesTo(ms[k], t)
    decreases |ms|
  {
    if ms == [] then None
    else if NormalisesTo(ms[|ms| - 1], t) then Some(|ms| - 1)
    else
      var init := ms[..|ms| - 1];
      var r := LastKept(init, t);
      assert forall k :: 0 <= k < |init| ==> ms[k] == init[k];
      r
  }

  /**
   * A tag is in the dictionary built from the matches `ms` iff some match
   * yields it, and it holds the weight of the last match that does.
   */
  lemma {:induction false} EntriesLastWins(ms: seq<Match>, t: string)
    requires Entries(ms).Success?
    ensures t in Dict(Entries(ms).value) <==> LastKept(ms, t).Some?
    ensures t in Dict(Entries(ms).value) ==> Dict(Entries(ms).value)[t] == Weight(ms[LastKept(ms, t).value].q)
    decreases |ms|
  {
    if ms != [] {
      var init := ms[..|ms| - 1];
      var m := ms[|ms| - 1];
      assert ms == init + [m];
      EntriesSnoc(init, m);
      EntriesLastWins(init, t);
      var es := Entries(init).value;
      var d := Dict(Entries(ms).value);
      if NormaliseTag(m.tag) == Success(None) {
        assert d == Dict(es);
      } else {
        var u := NormaliseTag(m.tag).value.value;
        var es1 := es + [(u, Weight(m.q))];
        assert es1[..|es1| - 1] == es;
        assert d == Dict(es)[u := Weight(m.q)];
      }
      if !NormalisesTo(m, t) && LastKept(init, t).Some? {
        assert ms[LastKept(init, t).value] == init[LastKept(init, t).value];
      }
    }
  }

  /** The assignments the loop performs for a non-empty header. */
  function ParseEntries(header: string, g: QGrammar): Result<seq<(string, nat)>, Fault> {
    Entries(Scan(header, 0, g))
  }

  /** Python's `parse_accept_language_header(header)` for the grammar `g`: `None` for an empty or missing header. */
  function Parse(header: Option<string>, g: QGrammar): (r: Result<Option<map<string, nat>>, Fault>)
    ensures !Truthy(header) ==> r == Success(None)
    ensures Truthy(header) ==> r != Success(None)
  {
    if !Truthy(header) then Success(None)
    else match ParseEntries(header.value, g)
      case Failure(e) => Failure(e)
      case Success(es) => Success(Some(Dict(es)))
  }

  /**
   * A tag is a key of the parsed dictionary iff some match the scan finds
   * yields it, and its weight is that of the last such match: a tag
   * repeated in the header keeps its last weight.
   */
  lemma {:induction false} ParseLastWins(header: string, g: QGrammar, t: string)
    ensures Parse(Some(header), g).Success? && Parse(Some(header), g).value.Some? ==>
      var d := Parse(Some(header), g).value.value;
      var ms := Scan(header, 0, g);
      && (t in d <==> LastKept(ms, t).Some?)
      && (t in d ==> d[t] == Weight(ms[LastKept(ms, t).value].q))
  {
    var ms := Scan(header, 0, g);
    ParseIsDict(header, g, ms);
    if Parse(Some(header), g).Success? && Parse(Some(header), g).value.Some? {
      EntriesLastWins(ms, t);
    }
  }

  /** A parsed dictionary is the one the assignments of the scanned matches build. */
  lemma {:induction false} ParseIsDict(header: string, g: QGrammar, ms: seq<Match>)
    requires ms == Scan(header, 0, g)
    ensures Parse(Some(header), g).Success? && Parse(Some(header), g).value.Some? ==>
              Entries(ms).Success? && Parse(Some(header), g).value.value == Dict(Entries(ms).value)
  {
    assert ParseEntries(header, g) == Entries(ms);
  }

  /**
   * The dictionary's keys in the order they were first assigned. Python 2
   * iterates a dict in hash order; first-assignment order stands in for it.
   */
  function Keys(es: seq<(string, nat)>): (ks: seq<string>)
    ensures forall i, j :: 0 <= i < j < |ks| ==> ks[i] != ks[j]
    ensures forall t :: t in ks <==> t in Dict(es)
  {
    if es == [] then []
    else
      var init := es[..|es| - 1];
      var ks := Keys(init);
      forall t
        ensures t in Dict(es) <==> t in Dict(init) || t == es[|es| - 1].0
      {
      }
      if es[|es| - 1].0 in ks then ks else ks + [es[|es| - 1].0]
  }

  /**
   * Every key of a parsed dictionary is a normalised locale tag and every
   * weight is at most `MaxWeight(g)`; parsing fails only with IndexError.
   */
  lemma {:induction false} ParsedDictShape(header: string, g: QGrammar)
    ensures Parse(Some(header), g).Failure? ==> Parse(Some(header), g).error == IndexError
    ensures Parse(Some(header), g).Success? && Parse(Some(header), g).value.Some? ==>
      var d := Parse(Some(header), g).value.value;
      forall t :: t in d ==> IsLocaleKey(t) && d[t] <= MaxWeight(g)
  {
    if header != "" {
      var ms := Scan(header, 0, g);
      assert ParseEntries(header, g) == Entries(ms);
      EntriesShape(ms, g);
      if Entries(ms).Success? {
        var es := Entries(ms).value;
        forall t | t in Dict(es)
          ensures IsLocaleKey(t) && Dict(es)[t] <= MaxWeight(g)
        {
          DictLastWins(es, t);
        }
      }
    }
  }

  /** The assignments made from scanned matches carry locale keys and bounded weights. */
  lemma {:induction false} EntriesShape(ms: seq<Match>, g: QGrammar)
    requires AllCaptured(g, ms)
    ensures Entries(ms).Failure? ==> Entries(ms).error == IndexError
    ensures Entries(ms).Success? ==>
      forall k :: 0 <= k < |Entries(ms).value| ==>
        IsLocaleKey(Entries(ms).value[k].0) && Entries(ms).value[k].1 <= MaxWeight(g)
  {
    if ms != [] {
      CapturedTail(g, ms);
      EntriesShape(ms[1..], g);
      NormalisedIsLocaleKey(ms[0].tag);
      if ms[0].q.Some? {
        QValueWeightBound(g, ms[0].q.value);
      }
    }
  }
}
