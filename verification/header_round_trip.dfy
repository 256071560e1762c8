/**
 * What the scanner reads from a header written the way browsers write one:
 * comma-separated tags, each optionally followed by `;q=` and a qvalue.
 * Scanning such a header gives back exactly the matches it was written
 * from, so the scanner captures whole tags and whole qvalues and nothing
 * else.
 */
module HeaderRoundTrip {
  import opened Wrappers
  import opened Text
  import opened AcceptLanguage

  // ---------------------------------------------------------------------
  // One step of the scanner

  lemma {:induction false} RunIs(s: string, i: nat, c: CharClass, limit: nat, n: nat)
    requires i + n <= |s| && n <= limit
    requires forall k :: i <= k < i + n ==> InClass(c, s[k])
    requires i + n < |s| && n < limit ==> !InClass(c, s[i + n])
    ensures Run(s, i, c, limit) == n
  {
  }

  lemma {:induction false} NoSpaceAt(s: string, i: nat)
    requires i <= |s| && (i == |s| || !IsSpace(s[i]))
    ensures SkipSpace(s, i) == i
  {
  }

  /** A tag of letters only, ending at `a`. */
  lemma {:induction false} TagEndPlain(s: string, i: nat, a: nat)
    requires i < a <= |s| && a - i <= 8
    requires forall k :: i <= k < a ==> IsLetter(s[k])
    requires a == |s| || (!IsLetter(s[a]) && s[a] != '-')
    ensures TagEnd(s, i) == a
  {
    RunIs(s, i, Letters, 8, a - i);
    TagEndPlainAt(s, i, a);
  }

  /** A tag `letters-alphanumerics` with the dash at `a`, ending at `j`. */
  lemma {:induction false} TagEndDashed(s: string, i: nat, a: nat, j: nat)
    requires i < a && a + 1 < j <= |s| && a - i <= 8 && j - a - 1 <= 8
    requires forall k :: i <= k < a ==> IsLetter(s[k])
    requires s[a] == '-'
    requires forall k :: a < k < j ==> IsAlnum(s[k])
    requires j == |s| || !IsAlnum(s[j])
    ensures TagEnd(s, i) == j
  {
    RunIs(s, i, Letters, 8, a - i);
    RunIs(s, a + 1, Alnums, 8, j - a - 1);
    TagEndDashedAt(s, i, a, j);
  }

  /** A qvalue `d.ddd` at `p`, ending at `e`. */
  lemma {:induction false} QValueFraction(s: string, p: nat, e: nat, g: QGrammar)
    requires p + 2 < e <= |s|
    requires s[p] == '0' || (s[p] == '1' && g == OneOrZeroWithFraction)
    requires s[p + 1] == '.'
    requires forall k :: p + 2 <= k < e ==> IsDigit(s[k])
    requires e == |s| || !IsDigit(s[e])
    ensures QValueEnd(s, p, g) == Some(e)
  {
    RunIs(s, p + 2, Digits, |s|, e - p - 2);
  }

  /** `;q=` written without spaces, followed by a qvalue ending at `e`. */
  lemma {:induction false} QGroupSome(s: string, j: nat, g: QGrammar, e: nat)
    requires j + 3 <= |s| && s[j] == ';' && s[j + 1] == 'q' && s[j + 2] == '='
    requires j + 3 == |s| || !IsSpace(s[j + 3])
    requires QValueEnd(s, j + 3, g) == Some(e)
    ensures QGroup(s, j, g) == Some((s[j + 3..e], e))
  {
    NoSpaceAt(s, j + 1);
    NoSpaceAt(s, j + 2);
    NoSpaceAt(s, j + 3);
  }

  /** `;q=` written without spaces, followed by no qvalue. */
  lemma {:induction false} QGroupNone(s: string, j: nat, g: QGrammar)
    requires j + 3 <= |s| && s[j] == ';' && s[j + 1] == 'q' && s[j + 2] == '='
    requires j + 3 == |s| || !IsSpace(s[j + 3])
    requires QValueEnd(s, j + 3, g) == None
    ensures QGroup(s, j, g) == None
  {
    NoSpaceAt(s, j + 1);
    NoSpaceAt(s, j + 2);
    NoSpaceAt(s, j + 3);
  }

  lemma {:induction false} QGroupAbsent(s: string, j: nat, g: QGrammar)
    requires j <= |s| && (j == |s| || s[j] != ';')
    ensures QGroup(s, j, g) == None
  {
  }

  /** The match at `i` when the tag ends at `t` and no space follows it. */
  lemma {:induction false} MatchAtIs(s: string, i: nat, g: QGrammar, t: nat)
    requires i < |s| && IsLetter(s[i]) && TagEnd(s, i) == t
    requires t == |s| || !IsSpace(s[t])
    ensures QGroup(s, t, g).Some? ==>
      MatchAt(s, i, g) == (Match(s[i..t], Some(QGroup(s, t, g).value.0)), QGroup(s, t, g).value.1)
    ensures QGroup(s, t, g).None? ==> MatchAt(s, i, g) == (Match(s[i..t], None), t)
  {
    NoSpaceAt(s, t);
  }

  lemma {:induction false} ScanEnd(s: string, g: QGrammar)
    ensures Scan(s, |s|, g) == []
  {
  }

  lemma {:induction false} ScanSkip(s: string, i: nat, g: QGrammar)
    requires i < |s| && !IsLetter(s[i])
    ensures Scan(s, i, g) == Scan(s, i + 1, g)
  {
  }

  lemma {:induction false} ScanMatch(s: string, i: nat, g: QGrammar)
    requires i < |s| && IsLetter(s[i])
    ensures Scan(s, i, g) == [MatchAt(s, i, g).0] + Scan(s, MatchAt(s, i, g).1, g)
  {
  }

  /** A single match covering the whole string. */
  lemma {:induction false} ScanWhole(s: string, g: QGrammar, m: Match)
    requires 0 < |s| && IsLetter(s[0]) && MatchAt(s, 0, g) == (m, |s|)
    ensures Scan(s, 0, g) == [m]
  {
    ScanMatch(s, 0, g);
    ScanEnd(s, g);
  }

  // ---------------------------------------------------------------------
  // Writing a header

  /** A match as a header spells it: the tag, then `;q=` and the qvalue when there is one. */
  function Render(m: Match): (s: string)
    ensures |s| == |m.tag| + (if m.q.Some? then 3 + |m.q.value| else 0)
  {
    match m.q
    case None => m.tag
    case Some(v) => m.tag + ";q=" + v
  }

  /** Rendered matches separated by commas. */
  function Join(ms: seq<Match>): string {
    if ms == [] then ""
    else if |ms| == 1 then Render(ms[0])
    else Render(ms[0]) + "," + Join(ms[1..])
  }

  /** `t` is spelled out in `s` from position `i`. */
  predicate Spells(s: string, i: nat, t: string) {
    i + |t| <= |s| && forall k :: 0 <= k < |t| ==> s[i + k] == t[k]
  }

  /** A written tag, followed by `;`, `,` or the end, is captured whole. */
  lemma {:induction false} TagRendered(s: string, i: nat, t: string)
    requires IsRawTag(t) && Spells(s, i, t)
    requires i + |t| == |s| || s[i + |t|] == ';' || s[i + |t|] == ','
    ensures i < |s| && IsLetter(s[i])
    ensures TagEnd(s, i) == i + |t|
  {
    match IndexOf(t, '-')
    case None =>
      assert IsLetter(t[0]);
      forall k | i <= k < i + |t|
        ensures IsLetter(s[k])
      {
        assert s[i + (k - i)] == t[k - i];
      }
      TagEndPlain(s, i, i + |t|);
    case Some(d) =>
      assert t[..d][0] == t[0];
      forall k | i <= k < i + d
        ensures IsLetter(s[k])
      {
        assert s[i + (k - i)] == t[k - i];
        assert t[..d][k - i] == t[k - i];
      }
      assert s[i + d] == t[d];
      forall k | i + d < k < i + |t|
        ensures IsAlnum(s[k])
      {
        assert s[i + (k - i)] == t[k - i];
        assert t[d + 1..][k - i - d - 1] == t[k - i];
      }
      TagEndDashed(s, i, i + d, i + |t|);
  }

  /** A written qvalue, followed by `,` or the end, is read whole. */
  lemma {:induction false} QValueRendered(s: string, p: nat, v: string, g: QGrammar)
    requires IsQValue(g, v) && Spells(s, p, v)
    requires p + |v| == |s| || s[p + |v|] == ','
    ensures p < |s| && !IsSpace(s[p])
    ensures QValueEnd(s, p, g) == Some(p + |v|)
  {
    assert s[p + 0] == v[0];
    if |v| >= 3 {
      assert s[p + 1] == v[1];
      forall k | p + 2 <= k < p + |v|
        ensures IsDigit(s[k])
      {
        assert s[p + (k - p)] == v[k - p];
        assert v[2..][k - p - 2] == v[k - p];
      }
      RunIs(s, p + 2, Digits, |s|, |v| - 2);
    }
  }

  /** The match at `i` once its tag is known to end at `j`, before `,` or the end. */
  lemma {:induction false} MatchAtPlain(s: string, i: nat, g: QGrammar, j: nat)
    requires i < |s| && IsLetter(s[i]) && TagEnd(s, i) == j
    requires j == |s| || s[j] == ','
    ensures MatchAt(s, i, g) == (Match(s[i..j], None), j)
  {
    QGroupAbsent(s, j, g);
    assert j == |s| || !IsSpace(s[j]);
    MatchAtIs(s, i, g, j);
  }

  /** The match at `i` once its tag is known to end at `j`, before `;q=` and a qvalue ending at `e`. */
  lemma {:induction false} MatchAtWithQ(s: string, i: nat, g: QGrammar, j: nat, e: nat)
    requires i < |s| && IsLetter(s[i]) && TagEnd(s, i) == j
    requires j + 3 < |s| && s[j] == ';' && s[j + 1] == 'q' && s[j + 2] == '=' && !IsSpace(s[j + 3])
    requires QValueEnd(s, j + 3, g) == Some(e)
    ensures MatchAt(s, i, g) == (Match(s[i..j], Some(s[j + 3..e])), e)
  {
    QGroupSome(s, j, g, e);
    assert !IsSpace(s[j]);
    MatchAtIs(s, i, g, j);
  }

  lemma {:induction false} SpellsSlice(s: string, i: nat, t: string)
    requires Spells(s, i, t)
    ensures s[i..i + |t|] == t
  {
  }

  /** A written tag without a qvalue, ending at `j` before `,` or the end. */
  lemma {:induction false} MatchPlain(s: string, i: nat, j: nat, t: string, g: QGrammar)
    requires IsRawTag(t) && Spells(s, i, t) && j == i + |t|
    requires j == |s| || s[j] == ','
    ensures i < |s| && IsLetter(s[i])
    ensures MatchAt(s, i, g) == (Match(t, None), j)
  {
    PlainParts(s, i, j, t);
    MatchAtTag(s, i, g, j, t);
  }

  /** What the scanner sees of a written tag followed by `;`, `,` or the end, without reading the match. */
  lemma {:induction false} PlainParts(s: string, i: nat, j: nat, t: string)
    requires IsRawTag(t) && Spells(s, i, t) && j == i + |t|
    requires j == |s| || s[j] == ';' || s[j] == ','
    ensures i < |s| && IsLetter(s[i]) && TagEnd(s, i) == j
    ensures i <= j <= |s| && s[i..j] == t
  {
    TagRendered(s, i, t);
    SpellsSlice(s, i, t);
  }

  lemma {:induction false} MatchAtTag(s: string, i: nat, g: QGrammar, j: nat, t: string)
    requires i < |s| && IsLetter(s[i]) && TagEnd(s, i) == j
    requires j == |s| || s[j] == ','
    requires i <= j <= |s| && s[i..j] == t
    ensures MatchAt(s, i, g) == (Match(t, None), j)
  {
    MatchAtPlain(s, i, g, j);
  }

  /** A written tag ending at `j`, then `;q=` and a qvalue ending at `e` before `,` or the end. */
  lemma {:induction false} MatchWithQ(s: string, i: nat, j: nat, e: nat, t: string, v: string, g: QGrammar)
    requires IsRawTag(t) && IsQValue(g, v) && Spells(s, i, t) && j == i + |t|
    requires j + 3 < |s| && s[j] == ';' && s[j + 1] == 'q' && s[j + 2] == '='
    requires Spells(s, j + 3, v) && e == j + 3 + |v|
    requires e == |s| || s[e] == ','
    ensures i < |s| && IsLetter(s[i])
    ensures MatchAt(s, i, g) == (Match(t, Some(v)), e)
  {
    var p := j + 3;
    PlainParts(s, i, j, t);
    QValueParts(s, p, e, v, g);
    MatchAtTagQ(s, i, g, j, p, e, t, v);
  }

  /** What the scanner sees of a written qvalue, without reading the match. */
  lemma {:induction false} QValueParts(s: string, p: nat, e: nat, v: string, g: QGrammar)
    requires IsQValue(g, v) && Spells(s, p, v) && e == p + |v|
    requires e == |s| || s[e] == ','
    ensures p < |s| && !IsSpace(s[p]) && QValueEnd(s, p, g) == Some(e)
    ensures p <= e <= |s| && s[p..e] == v
  {
    QValueRendered(s, p, v, g);
    SpellsSlice(s, p, v);
  }

  lemma {:induction false} MatchAtTagQ(s: string, i: nat, g: QGrammar, j: nat, p: nat, e: nat, t: string, v: string)
    requires i < |s| && IsLetter(s[i]) && TagEnd(s, i) == j
    requires p == j + 3 && p < |s| && s[j] == ';' && s[j + 1] == 'q' && s[j + 2] == '=' && !IsSpace(s[p])
    requires QValueEnd(s, p, g) == Some(e)
    requires i <= j && s[i..j] == t && s[p..e] == v
    ensures MatchAt(s, i, g) == (Match(t, Some(v)), e)
  {
    MatchAtWithQ(s, i, g, j, e);
  }

  /** A written match ending at `e`, before `,` or the end, is the match the scanner finds there. */
  lemma {:induction false} MatchRendered(s: string, i: nat, e: nat, m: Match, g: QGrammar)
    requires Captured(g, m) && Spells(s, i, Render(m)) && e == i + |Render(m)|
    requires e == |s| || s[e] == ','
    ensures i < |s| && IsLetter(s[i])
    ensures MatchAt(s, i, g) == (m, e)
  {
    if m.q.None? {
      assert Render(m) == m.tag;
      MatchPlain(s, i, e, m.tag, g);
    } else {
      var j := i + |m.tag|;
      WithQChars(s, i, m);
      MatchWithQ(s, i, j, e, m.tag, m.q.value, g);
    }
  }

  /** The parts of a written match with a qvalue, one at a time. */
  lemma {:induction false} WithQChars(s: string, i: nat, m: Match)
    requires m.q.Some? && Spells(s, i, Render(m))
    ensures i + |m.tag| + 3 + |m.q.value| == i + |Render(m)|
    ensures Spells(s, i, m.tag)
    ensures s[i + |m.tag|] == ';' && s[i + |m.tag| + 1] == 'q' && s[i + |m.tag| + 2] == '='
    ensures Spells(s, i + |m.tag| + 3, m.q.value)
  {
    var r, t, v := Render(m), |m.tag|, m.q.value;
    forall k | 0 <= k < t
      ensures s[i + k] == m.tag[k]
    {
      assert r[..t][k] == r[k];
    }
    assert s[i + t] == r[t] == r[t..t + 3][0];
    assert s[i + t + 1] == r[t + 1] == r[t..t + 3][1];
    assert s[i + t + 2] == r[t + 2] == r[t..t + 3][2];
    forall k | 0 <= k < |v|
      ensures s[i + t + 3 + k] == v[k]
    {
      assert s[i + (t + 3 + k)] == r[t + 3 + k] == r[t + 3..][k];
    }
  }

  /** The characters of a written list of two or more matches: the first match, `,`, then the rest. */
  lemma {:induction false} JoinChars(ms: seq<Match>)
    requires |ms| > 1
    ensures Joined(Join(ms), Render(ms[0]), Join(ms[1..]))
  {
    var r, w, rest := Render(ms[0]), Join(ms), Join(ms[1..]);
    assert w == r + "," + rest;
    forall k | 0 <= k < |rest|
      ensures w[|r| + 1 + k] == rest[k]
    {
      assert (r + ",")[..] + rest == w;
    }
  }

  /** `w` is `r`, a comma, then `rest`. */
  predicate Joined(w: string, r: string, rest: string) {
    && |w| == |r| + 1 + |rest| && w[|r|] == ','
    && (forall k :: 0 <= k < |r| ==> w[k] == r[k])
    && (forall k :: 0 <= k < |rest| ==> w[|r| + 1 + k] == rest[k])
  }

  /** Where `w` is spelled and `w` is `r`, a comma and `rest`, each part is spelled in its place. */
  lemma {:induction false} JoinedParts(s: string, i: nat, e: nat, w: string, r: string, rest: string)
    requires Spells(s, i, w) && i + |w| == |s| && Joined(w, r, rest) && e == i + |r|
    ensures Spells(s, i, r)
    ensures e < |s| && s[e] == ','
    ensures Spells(s, e + 1, rest) && e + 1 + |rest| == |s|
  {
    forall k | 0 <= k < |r|
      ensures s[i + k] == r[k]
    {
      assert w[k] == r[k];
    }
    assert s[i + |r|] == w[|r|];
    forall k | 0 <= k < |rest|
      ensures s[e + 1 + k] == rest[k]
    {
      assert s[i + (|r| + 1 + k)] == w[|r| + 1 + k];
    }
  }

  /** The first written match of a list is spelled where the list starts; a lone match ends the string. */
  lemma {:induction false} JoinHead(s: string, i: nat, ms: seq<Match>)
    requires ms != [] && Spells(s, i, Join(ms)) && i + |Join(ms)| == |s|
    ensures Spells(s, i, Render(ms[0]))
    ensures |ms| == 1 ==> i + |Render(ms[0])| == |s|
  {
    if |ms| > 1 {
      JoinChars(ms);
      JoinedParts(s, i, i + |Render(ms[0])|, Join(ms), Render(ms[0]), Join(ms[1..]));
    }
  }

  /** After the first written match of a longer list comes `,` and the rest of the list, up to the end. */
  lemma {:induction false} JoinTail(s: string, i: nat, e: nat, ms: seq<Match>)
    requires |ms| > 1 && Spells(s, i, Join(ms)) && i + |Join(ms)| == |s|
    requires e == i + |Render(ms[0])|
    ensures e < |s| && s[e] == ','
    ensures Spells(s, e + 1, Join(ms[1..])) && e + 1 + |Join(ms[1..])| == |s|
  {
    JoinChars(ms);
    JoinedParts(s, i, e, Join(ms), Render(ms[0]), Join(ms[1..]));
  }

  /** The scan from where a written match starts: that match, then the scan from its end. */
  lemma {:induction false} ScanRendered(s: string, i: nat, e: nat, m: Match, g: QGrammar)
    requires Captured(g, m) && Spells(s, i, Render(m)) && e == i + |Render(m)|
    requires e == |s| || s[e] == ','
    ensures e <= |s| && Scan(s, i, g) == [m] + Scan(s, e, g)
  {
    MatchRendered(s, i, e, m, g);
    ScanStep(s, i, g, m, e);
  }

  /** The scan over a written match that ends the string. */
  lemma {:induction false} ScanLast(s: string, i: nat, m: Match, g: QGrammar)
    requires Captured(g, m) && Spells(s, i, Render(m)) && i + |Render(m)| == |s|
    ensures Scan(s, i, g) == [m]
  {
    ScanRendered(s, i, |s|, m, g);
    ScanEnd(s, g);
    assert [m] + [] == [m];
  }

  /** The scan over a written match followed by `,`: that match, then the scan after the comma. */
  lemma {:induction false} ScanFirst(s: string, i: nat, e: nat, m: Match, g: QGrammar)
    requires Captured(g, m) && Spells(s, i, Render(m)) && e == i + |Render(m)|
    requires e < |s| && s[e] == ','
    ensures Scan(s, i, g) == [m] + Scan(s, e + 1, g)
  {
    ScanRendered(s, i, e, m, g);
    ScanSkip(s, e, g);
  }

  /** The scan from a letter, once the match found there is known. */
  lemma {:induction false} ScanStep(s: string, i: nat, g: QGrammar, m: Match, e: nat)
    requires i < |s| && IsLetter(s[i]) && MatchAt(s, i, g) == (m, e)
    ensures e <= |s| && Scan(s, i, g) == [m] + Scan(s, e, g)
  {
    ScanMatch(s, i, g);
  }

  /** Scanning from a point where a written list starts, up to the end, gives back that list. */
  lemma {:induction false} ScanJoin(s: string, i: nat, ms: seq<Match>, g: QGrammar)
    requires AllCaptured(g, ms)
    requires Spells(s, i, Join(ms)) && i + |Join(ms)| == |s|
    ensures Scan(s, i, g) == ms
    decreases |ms|
  {
    if ms == [] {
      ScanEnd(s, g);
    } else if |ms| == 1 {
      ScanJoinLast(s, i, ms, g);
    } else {
      var e := i + |Render(ms[0])|;
      ScanJoinStep(s, i, e, ms, g);
      ScanJoin(s, e + 1, ms[1..], g);
      HeadThenTail(Scan(s, i, g), Scan(s, e + 1, g), ms);
    }
  }

  /** The round trip for a list of one match. */
  lemma {:induction false} ScanJoinLast(s: string, i: nat, ms: seq<Match>, g: QGrammar)
    requires |ms| == 1 && AllCaptured(g, ms)
    requires Spells(s, i, Join(ms)) && i + |Join(ms)| == |s|
    ensures Scan(s, i, g) == ms
  {
    CapturedTail(g, ms);
    JoinHead(s, i, ms);
    ScanLast(s, i, ms[0], g);
  }

  /** A sequence made of the head of `ms` and then its tail is `ms`. */
  lemma {:induction false} HeadThenTail<T>(x: seq<T>, y: seq<T>, ms: seq<T>)
    requires ms != [] && x == [ms[0]] + y && y == ms[1..]
    ensures x == ms
  {
    assert ms == [ms[0]] + ms[1..];
  }

  /** One step of the round trip: the first written match, then the rest of the list after the comma. */
  lemma {:induction false} ScanJoinStep(s: string, i: nat, e: nat, ms: seq<Match>, g: QGrammar)
    requires |ms| > 1 && AllCaptured(g, ms)
    requires Spells(s, i, Join(ms)) && i + |Join(ms)| == |s|
    requires e == i + |Render(ms[0])|
    ensures AllCaptured(g, ms[1..])
    ensures Spells(s, e + 1, Join(ms[1..])) && e + 1 + |Join(ms[1..])| == |s|
    ensures Scan(s, i, g) == [ms[0]] + Scan(s, e + 1, g)
  {
    CapturedTail(g, ms);
    JoinHead(s, i, ms);
    JoinTail(s, i, e, ms);
    ScanFirst(s, i, e, ms[0], g);
  }

  /**
   * `re.finditer` over comma-separated tags and qvalues the pattern can
   * capture finds exactly those tags and qvalues, in order.
   */
  lemma {:induction false} ScanRoundTrip(ms: seq<Match>, g: QGrammar)
    requires AllCaptured(g, ms)
    ensures Scan(Join(ms), 0, g) == ms
  {
    var s := Join(ms);
    assert forall k :: 0 <= k < |s| ==> s[0 + k] == s[k];
    ScanJoin(s, 0, ms, g);
  }
}
