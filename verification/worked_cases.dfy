/**
 * Headers worked through the parser of each module, showing where the two
 * qvalue grammars part ways and where parsing drops a tag or raises.
 */
module WorkedCases {
  import opened Wrappers
  import opened Text
  import opened Web
  import opened AcceptLanguage
  import opened LocaleLib
  import BpI18n
  import BoilerplateI18n
  import opened HeaderRoundTrip
  import opened DisplayStrings

  /** A match whose tag normalises to `t` adds one assignment in front. */
  lemma {:induction false} EntriesKeep(m: Match, ms: seq<Match>, t: string)
    requires NormaliseTag(m.tag) == Success(Some(t)) && Entries(ms).Success?
    ensures Entries([m] + ms) == Success([(t, Weight(m.q))] + Entries(ms).value)
  {
    assert ([m] + ms)[1..] == ms;
  }

  /** A match whose tag is dropped adds nothing. */
  lemma {:induction false} EntriesDrop(m: Match, ms: seq<Match>)
    requires NormaliseTag(m.tag) == Success(None)
    ensures Entries([m] + ms) == Entries(ms)
  {
    assert ([m] + ms)[1..] == ms;
  }

  /** The assignments made for a single match whose tag normalises to `t`. */
  lemma {:induction false} EntriesOne(m: Match, t: string)
    requires NormaliseTag(m.tag) == Success(Some(t))
    ensures Entries([m]) == Success([(t, Weight(m.q))])
  {
    assert Entries([]) == Success([]);
    EntriesKeep(m, [], t);
    assert [m] + [] == [m];
    assert [(t, Weight(m.q))] + [] == [(t, Weight(m.q))];
  }

  lemma {:induction false} EnIsTwoLetters()
    ensures NormaliseTag("en") == Success(Some("en"))
  {
    NormaliseTwoLetters("en");
    assert Lower("en") == "en";
  }

  // ---------------------------------------------------------------------
  // One step of the parser

  /** A non-empty header is parsed into the dictionary of its assignments. */
  lemma {:induction false} ParseSome(h: string, g: QGrammar, es: seq<(string, nat)>)
    requires h != [] && ParseEntries(h, g) == Success(es)
    ensures Parse(Some(h), g) == Success(Some(Dict(es)))
  {
  }

  /** A non-empty header whose assignments raise makes the parse raise. */
  lemma {:induction false} ParseRaises(h: string, g: QGrammar, e: Fault)
    requires h != [] && ParseEntries(h, g) == Failure(e)
    ensures Parse(Some(h), g) == Failure(e)
  {
  }

  lemma {:induction false} DictOne(t: string, w: nat)
    ensures Dict([(t, w)]) == map[t := w]
  {
    assert [(t, w)][..0] == [];
  }

  lemma {:induction false} WeightOnePointFive()
    ensures Weight(Some("1.5")) == 150
  {
  }

  lemma {:induction false} WeightOne()
    ensures Weight(Some("1")) == 100
  {
  }

  // ---------------------------------------------------------------------
  // Headers

  const QFrac := "en;q=1.5"

  /** The characters of `en;q=1.5`. */
  predicate IsQFrac(s: string) {
    |s| == 8 && s[0] == 'e' && s[1] == 'n' && s[2] == ';' && s[3] == 'q' && s[4] == '='
    && s[5] == '1' && s[6] == '.' && s[7] == '5'
  }

  lemma {:induction false} FracSlices()
    ensures IsQFrac(QFrac)
    ensures QFrac[0..2] == "en" && QFrac[5..6] == "1" && QFrac[5..8] == "1.5"
  {
  }

  lemma {:induction false} FracScanCurrentAt(s: string)
    requires IsQFrac(s)
    ensures Scan(s, 0, OneOrZeroWithFraction) == [Match(s[0..2], Some(s[5..8]))]
  {
    var g := OneOrZeroWithFraction;
    TagEndPlain(s, 0, 2);
    QValueFraction(s, 5, 8, g);
    QGroupSome(s, 2, g, 8);
    MatchAtIs(s, 0, g, 2);
    ScanWhole(s, g, Match(s[0..2], Some(s[5..8])));
  }

  lemma {:induction false} FracScanCurrent()
    ensures Scan(QFrac, 0, OneOrZeroWithFraction) == [Match("en", Some("1.5"))]
  {
    FracSlices();
    FracScanCurrentAt(QFrac);
  }

  /** The current module reads `q=1.5` whole, giving a weight above 100. */
  lemma {:induction false} FractionAboveOneCurrent()
    ensures BpI18n.ParseAcceptLanguageHeader(Some(QFrac)) == Success(Some(map["en" := 150]))
  {
    var m := Match("en", Some("1.5"));
    FracScanCurrent();
    EnIsTwoLetters();
    EntriesOne(m, "en");
    WeightOnePointFive();
    assert ParseEntries(QFrac, OneOrZeroWithFraction) == Success([("en", 150)]);
    DictOne("en", 150);
    ParseSome(QFrac, OneOrZeroWithFraction, [("en", 150)]);
  }

  lemma {:induction false} FracScanOlderAt(s: string)
    requires IsQFrac(s)
    ensures Scan(s, 0, OneOrZeroPointDigits) == [Match(s[0..2], Some(s[5..6]))]
  {
    var g := OneOrZeroPointDigits;
    TagEndPlain(s, 0, 2);
    assert QValueEnd(s, 5, g) == Some(6);
    QGroupSome(s, 2, g, 6);
    MatchAtIs(s, 0, g, 2);
    ScanMatch(s, 0, g);
    ScanSkip(s, 6, g);
    ScanSkip(s, 7, g);
    ScanEnd(s, g);
  }

  lemma {:induction false} FracScanOlder()
    ensures Scan(QFrac, 0, OneOrZeroPointDigits) == [Match("en", Some("1"))]
  {
    FracSlices();
    FracScanOlderAt(QFrac);
  }

  /** The older module's `1` alternative stops after the `1`, so the same header weighs 100. */
  lemma {:induction false} FractionAboveOneOlder()
    ensures BoilerplateI18n.ParseAcceptLanguageHeader(Some(QFrac)) == Success(Some(map["en" := 100]))
  {
    var m := Match("en", Some("1"));
    FracScanOlder();
    EnIsTwoLetters();
    EntriesOne(m, "en");
    WeightOne();
    assert ParseEntries(QFrac, OneOrZeroPointDigits) == Success([("en", 100)]);
    DictOne("en", 100);
    ParseSome(QFrac, OneOrZeroPointDigits, [("en", 100)]);
  }

  const QZero := "en;q=0"

  /** The characters of `en;q=0`. */
  predicate IsQZero(s: string) {
    |s| == 6 && s[0] == 'e' && s[1] == 'n' && s[2] == ';' && s[3] == 'q' && s[4] == '=' && s[5] == '0'
  }

  lemma {:induction false} ZeroSlices()
    ensures IsQZero(QZero)
    ensures QZero[0..2] == "en" && QZero[3..4] == "q"
  {
  }

  lemma {:induction false} ZeroScanOlderAt(s: string)
    requires IsQZero(s)
    ensures Scan(s, 0, OneOrZeroPointDigits) == [Match(s[0..2], None), Match(s[3..4], None)]
  {
    var g := OneOrZeroPointDigits;
    ZeroFirstMatch(s);
    ZeroSecondMatch(s);
    ScanMatch(s, 0, g);
    ScanSkip(s, 2, g);
    ScanMatch(s, 3, g);
    ScanSkip(s, 4, g);
    ScanSkip(s, 5, g);
    ScanEnd(s, g);
  }

  /** `en` followed by a `;q=` the older grammar cannot complete. */
  lemma {:induction false} ZeroFirstMatch(s: string)
    requires IsQZero(s)
    ensures MatchAt(s, 0, OneOrZeroPointDigits) == (Match(s[0..2], None), 2)
  {
    var g := OneOrZeroPointDigits;
    TagEndPlain(s, 0, 2);
    assert QValueEnd(s, 5, g) == None;
    QGroupNone(s, 2, g);
    MatchAtIs(s, 0, g, 2);
  }

  /** The `q` of `q=0`, read as a tag. */
  lemma {:induction false} ZeroSecondMatch(s: string)
    requires IsQZero(s)
    ensures MatchAt(s, 3, OneOrZeroPointDigits) == (Match(s[3..4], None), 4)
  {
    var g := OneOrZeroPointDigits;
    TagEndPlain(s, 3, 4);
    QGroupAbsent(s, 4, g);
    MatchAtIs(s, 3, g, 4);
  }

  lemma {:induction false} ZeroScanOlder()
    ensures Scan(QZero, 0, OneOrZeroPointDigits) == [Match("en", None), Match("q", None)]
  {
    ZeroSlices();
    ZeroScanOlderAt(QZero);
  }

  /**
   * Under the older grammar a bare `q=0` is no qvalue at all: the tag keeps
   * the default weight 100, and the `q` is matched as a tag of its own and
   * dropped for its length.
   */
  lemma {:induction false} BareZeroOlder()
    ensures BoilerplateI18n.ParseAcceptLanguageHeader(Some(QZero)) == Success(Some(map["en" := 100]))
  {
    var g := OneOrZeroPointDigits;
    ZeroScanOlder();
    ZeroEntries();
    assert ParseEntries(QZero, g) == Success([("en", 100)]);
    DictOne("en", 100);
    ParseSome(QZero, g, [("en", 100)]);
  }

  /** `en` keeps its default weight and `q` is dropped. */
  lemma {:induction false} ZeroEntries()
    ensures Entries([Match("en", None), Match("q", None)]) == Success([("en", 100)])
  {
    var ms := [Match("en", None), Match("q", None)];
    EnIsTwoLetters();
    assert NormaliseTag("q") == Success(None);
    assert Entries([]) == Success([]);
    EntriesDrop(Match("q", None), []);
    assert [Match("q", None)] + [] == [Match("q", None)];
    EntriesKeep(Match("en", None), [Match("q", None)], "en");
    assert [Match("en", None)] + [Match("q", None)] == ms;
    assert [("en", 100)] + [] == [("en", 100)];
  }

  const FiveLetters := "abcde"

  lemma {:induction false} FiveLettersScan(g: QGrammar)
    ensures Scan(FiveLetters, 0, g) == [Match(FiveLetters, None)]
  {
    var s := FiveLetters;
    TagEndPlain(s, 0, 5);
    QGroupAbsent(s, 5, g);
    MatchAtIs(s, 0, g, 5);
    assert s[0..5] == s;
    ScanWhole(s, g, Match(s, None));
  }

  /** A match whose tag raises stops the loop with that exception. */
  lemma {:induction false} EntriesRaise(m: Match, ms: seq<Match>)
    requires NormaliseTag(m.tag).Failure?
    ensures Entries([m] + ms) == Failure(NormaliseTag(m.tag).error)
  {
    assert ([m] + ms)[1..] == ms;
  }

  /** A five-letter tag without a dash raises IndexError in both modules. */
  lemma {:induction false} FiveLettersRaise()
    ensures BpI18n.ParseAcceptLanguageHeader(Some(FiveLetters)) == Failure(IndexError)
    ensures BoilerplateI18n.ParseAcceptLanguageHeader(Some(FiveLetters)) == Failure(IndexError)
  {
    FiveLettersEntries();
    FiveLettersScan(OneOrZeroWithFraction);
    FiveLettersScan(OneOrZeroPointDigits);
    ParseRaises(FiveLetters, OneOrZeroWithFraction, IndexError);
    ParseRaises(FiveLetters, OneOrZeroPointDigits, IndexError);
  }

  lemma {:induction false} FiveLettersEntries()
    ensures Entries([Match(FiveLetters, None)]) == Failure(IndexError)
  {
    var m := Match(FiveLetters, None);
    NormaliseFiveLetters(FiveLetters);
    EntriesRaise(m, []);
    assert [m] + [] == [m];
  }

  const LongRegion := "xx-yyyy"

  lemma {:induction false} LongRegionScan()
    ensures Scan(LongRegion, 0, OneOrZeroWithFraction) == [Match(LongRegion, None)]
  {
    var s, g := LongRegion, OneOrZeroWithFraction;
    TagEndDashed(s, 0, 2, 7);
    QGroupAbsent(s, 7, g);
    MatchAtIs(s, 0, g, 7);
    assert s[0..7] == s;
    ScanWhole(s, g, Match(s, None));
  }

  /** A tag of any length other than 2 or 5 is dropped: the dictionary is empty, not missing. */
  lemma {:induction false} OtherLengthDropped()
    ensures BpI18n.ParseAcceptLanguageHeader(Some(LongRegion)) == Success(Some(map[]))
  {
    LongRegionScan();
    LongRegionEntries();
    ParseSome(LongRegion, OneOrZeroWithFraction, []);
    assert Dict([]) == map[];
  }

  lemma {:induction false} LongRegionEntries()
    ensures Entries([Match(LongRegion, None)]) == Success([])
  {
    var m := Match(LongRegion, None);
    assert NormaliseTag(LongRegion) == Success(None);
    assert Entries([]) == Success([]);
    EntriesDrop(m, []);
    assert [m] + [] == [m];
  }

  /**
   * A Babel whose negotiation never finds a match, so it never strays
   * outside the offered locales, and which rejects only the tag "None".
   */
  const Undecided := Babel((preferred: seq<string>, available: seq<string>) => None,
                           (t: string) => t != "None",
                           (t: string) => t, (t: string, l: string) => t)

  const GermanBrowser := Request("GET", "/", [], [], map[], map["Accept-Language" := "de"])

  lemma {:induction false} GermanScan(g: QGrammar)
    ensures ParseEntries("de", g) == Success([("de", 100)])
  {
    var s := "de";
    TagEndPlain(s, 0, 2);
    QGroupAbsent(s, 2, g);
    MatchAtIs(s, 0, g, 2);
    assert s[0..2] == "de";
    ScanWhole(s, g, Match("de", None));
    NormaliseTwoLetters("de");
    assert Lower("de") == "de";
    EntriesOne(Match("de", None), "de");
  }

  /**
   * The current module can set the locale to the string "None": when the
   * browser's languages negotiate to nothing, `str(None)` is truthy and is
   * taken as the locale, outside the configured list.
   */
  lemma {:induction false} LocaleCanBeNone()
    ensures NegotiatesWithin(Undecided)
    ensures BpI18n.SetLocale(GermanBrowser, Response([], None), ["fr"], None, Undecided).Success?
    ensures BpI18n.SetLocale(GermanBrowser, Response([], None), ["fr"], None, Undecided).value.tag == "None"
  {
    GermanScan(OneOrZeroWithFraction);
    assert Param(GermanBrowser, "hl") == None;
    assert BpI18n.GetLocaleFromAcceptHeader(GermanBrowser, ["fr"], Undecided) == Success(Some("None"));
  }

  /**
   * With two configured locales the display strings for that "None" locale
   * cannot be built: `get_display_name("None")` raises for every other
   * configured locale, so `getLocaleStrings` fails.
   */
  lemma {:induction false} NoneHasNoDisplayStrings()
    ensures BpI18n.SetLocale(GermanBrowser, Response([], None), ["fr", "it"], None, Undecided).Success?
    ensures BpI18n.SetLocale(GermanBrowser, Response([], None), ["fr", "it"], None, Undecided).value.tag == "None"
    ensures !Displayable(Undecided, ["fr", "it"], "None")
  {
    GermanScan(OneOrZeroWithFraction);
    assert Param(GermanBrowser, "hl") == None;
    assert BpI18n.GetLocaleFromAcceptHeader(GermanBrowser, ["fr", "it"], Undecided) == Success(Some("None"));
    assert ["fr", "it"][0] != "None";
  }

  /**
   * A Babel that matches the browser's `de` against a configured `de` but
   * has no locale data for it, so parsing the matched tag raises.
   */
  const NoGermanData := Babel((preferred: seq<string>, available: seq<string>) =>
                                if "de" in preferred && "de" in available then Some("de") else None,
                              (t: string) => t != "de",
                              (t: string) => t, (t: string, l: string) => t)

  /**
   * With `en` and `de` configured and a German browser, the negotiation of
   * the Accept-Language step matches `de`, Babel cannot parse it, and
   * `set_locale` raises in both copies.
   */
  lemma {:induction false} UnparseableMatchRaises()
    ensures BpI18n.SetLocale(GermanBrowser, Response([], None), ["en", "de"], None, NoGermanData) == Failure(LocaleError)
    ensures BoilerplateI18n.SetLocale(GermanBrowser, Response([], None), ["en", "de"], None, None, NoGermanData)
      == Failure(LocaleError)
  {
    var locales := ["en", "de"];
    assert Param(GermanBrowser, "hl") == None;
    assert "de" in locales;
    GermanScan(OneOrZeroWithFraction);
    DictOne("de", 100);
    BpI18n.CandidatesByWeight([("de", 100)]);
    assert "de" in BpI18n.Candidates([("de", 100)]);
    assert BpI18n.GetLocaleFromAcceptHeader(GermanBrowser, locales, NoGermanData) == Failure(LocaleError);
    GermanScan(OneOrZeroPointDigits);
    BoilerplateI18n.CandidatesReverseSorted([("de", 100)]);
    assert "de" in BoilerplateI18n.Candidates([("de", 100)]);
    assert BoilerplateI18n.GetLocaleFromAcceptHeader(GermanBrowser, locales, NoGermanData) == Failure(LocaleError);
  }

  // ---------------------------------------------------------------------
  // The documented example: `en-US,en;q=0.8,es-es;q=0.5`

  const DocMatches := [Match("en-US", None), Match("en", Some("0.8")), Match("es-es", Some("0.5"))]
  const DocHeader := "en-US,en;q=0.8,es-es;q=0.5"

  lemma {:induction false} DocRenders()
    ensures Render(Match("en-US", None)) == "en-US"
    ensures Render(Match("en", Some("0.8"))) == "en;q=0.8"
    ensures Render(Match("es-es", Some("0.5"))) == "es-es;q=0.5"
  {
  }

  /** Three matches written out, separated by commas. */
  lemma {:induction false} JoinThree(m0: Match, m1: Match, m2: Match)
    ensures Join([m0, m1, m2]) == Render(m0) + "," + Render(m1) + "," + Render(m2)
  {
    var r0, r1, r2 := Render(m0), Render(m1), Render(m2);
    assert [m1, m2][1..] == [m2];
    assert Join([m1, m2]) == r1 + "," + r2;
    assert [m0, m1, m2][1..] == [m1, m2];
    assert Join([m0, m1, m2]) == r0 + "," + (r1 + "," + r2);
    assert r0 + "," + (r1 + "," + r2) == r0 + "," + r1 + "," + r2;
  }

  lemma {:induction false} DocHeaderJoins()
    ensures Join(DocMatches) == DocHeader
  {
    JoinThree(Match("en-US", None), Match("en", Some("0.8")), Match("es-es", Some("0.5")));
    DocRenders();
    DocHeaderParts();
  }

  lemma {:induction false} DocHeaderParts()
    ensures "en-US" + "," + "en;q=0.8" + "," + "es-es;q=0.5" == DocHeader
  {
  }

  /** A five-character tag of letters with `-` in the middle is captured whole. */
  lemma {:induction false} FiveDashedRaw(t: string)
    requires |t| == 5 && t[2] == '-'
    requires IsLetter(t[0]) && IsLetter(t[1]) && IsLetter(t[3]) && IsLetter(t[4])
    ensures IsRawTag(t)
  {
    assert AllIn(t[..2], IsLetter);
    assert AllIn(t[3..], IsAlnum);
    DashedRawTag(t, 2);
  }

  /** ... and becomes `ll_RR`, the first part lower-cased and the second upper-cased. */
  lemma {:induction false} FiveDashedCased(t: string)
    requires |t| == 5 && t[2] == '-'
    requires IsLetter(t[0]) && IsLetter(t[1]) && IsLetter(t[3]) && IsLetter(t[4])
    ensures NormaliseTag(t) == Success(Some([LowerChar(t[0]), LowerChar(t[1]), '_', UpperChar(t[3]), UpperChar(t[4])]))
  {
    FiveDashedRaw(t);
    NormaliseFiveWithDash(t, 2);
    CasedFive(t);
  }

  /** `lower(t[:2]) + "_" + upper(t[3:])`, character by character. */
  lemma {:induction false} CasedFive(t: string)
    requires |t| == 5
    ensures Lower(t[..2]) + "_" + Upper(t[3..]) == [LowerChar(t[0]), LowerChar(t[1]), '_', UpperChar(t[3]), UpperChar(t[4])]
  {
    var r := Lower(t[..2]) + "_" + Upper(t[3..]);
    assert r[0] == LowerChar(t[0]) && r[1] == LowerChar(t[1]) && r[2] == '_';
    assert r[3] == UpperChar(t[3]) && r[4] == UpperChar(t[4]);
    assert r == [LowerChar(t[0]), LowerChar(t[1]), '_', UpperChar(t[3]), UpperChar(t[4])];
  }

  lemma {:induction false} EnUsCaptured(g: QGrammar)
    ensures Captured(g, Match("en-US", None))
  {
    FiveDashedRaw("en-US");
  }

  lemma {:induction false} EnCaptured(g: QGrammar)
    ensures Captured(g, Match("en", Some("0.8")))
  {
    LettersHaveNo("en", '-');
    assert "0.8"[2..] == "8";
  }

  lemma {:induction false} EsEsCaptured(g: QGrammar)
    ensures Captured(g, Match("es-es", Some("0.5")))
  {
    FiveDashedRaw("es-es");
    assert "0.5"[2..] == "5";
  }

  /** Three capturable matches, written out, are scanned back. */
  lemma {:induction false} ScanThree(ms: seq<Match>, g: QGrammar)
    requires |ms| == 3 && Captured(g, ms[0]) && Captured(g, ms[1]) && Captured(g, ms[2])
    ensures Scan(Join(ms), 0, g) == ms
  {
    forall k | 0 <= k < |ms|
      ensures Captured(g, ms[k])
    {
    }
    ScanRoundTrip(ms, g);
  }

  lemma {:induction false} DocScan(g: QGrammar)
    ensures Scan(Join(DocMatches), 0, g) == DocMatches
  {
    EnUsCaptured(g);
    EnCaptured(g);
    EsEsCaptured(g);
    ScanThree(DocMatches, g);
  }

  /** Three matches whose tags all normalise give three assignments, in order. */
  lemma {:induction false} EntriesThree(m0: Match, m1: Match, m2: Match, t0: string, t1: string, t2: string)
    requires NormaliseTag(m0.tag) == Success(Some(t0))
    requires NormaliseTag(m1.tag) == Success(Some(t1))
    requires NormaliseTag(m2.tag) == Success(Some(t2))
    ensures Entries([m0, m1, m2]) == Success([(t0, Weight(m0.q)), (t1, Weight(m1.q)), (t2, Weight(m2.q))])
  {
    var e0, e1, e2 := (t0, Weight(m0.q)), (t1, Weight(m1.q)), (t2, Weight(m2.q));
    EntriesOne(m2, t2);
    EntriesKeep(m1, [m2], t1);
    assert [m1] + [m2] == [m1, m2];
    assert [e1] + [e2] == [e1, e2];
    EntriesKeep(m0, [m1, m2], t0);
    assert [m0] + [m1, m2] == [m0, m1, m2];
    assert [e0] + [e1, e2] == [e0, e1, e2];
  }

  /** Each documented tag and qvalue, normalised and weighed. */
  lemma {:induction false} DocEntries()
    ensures Entries(DocMatches) == Success([("en_US", 100), ("en", 80), ("es_ES", 50)])
  {
    var enUs, esEs := "en-US", "es-es";
    FiveDashedCased(enUs);
    assert [LowerChar(enUs[0]), LowerChar(enUs[1]), '_', UpperChar(enUs[3]), UpperChar(enUs[4])] == "en_US";
    FiveDashedCased(esEs);
    assert [LowerChar(esEs[0]), LowerChar(esEs[1]), '_', UpperChar(esEs[3]), UpperChar(esEs[4])] == "es_ES";
    EnIsTwoLetters();
    EntriesThree(Match("en-US", None), Match("en", Some("0.8")), Match("es-es", Some("0.5")), "en_US", "en", "es_ES");
    DocWeights();
  }

  lemma {:induction false} DocWeights()
    ensures Weight(None) == 100 && Weight(Some("0.8")) == 80 && Weight(Some("0.5")) == 50
  {
  }

  lemma {:induction false} DocDict()
    ensures Dict([("en_US", 100), ("en", 80), ("es_ES", 50)]) == map["en_US" := 100, "en" := 80, "es_ES" := 50]
  {
    var es := [("en_US", 100), ("en", 80), ("es_ES", 50)];
    assert es[..2][..1] == [("en_US", 100)];
    assert es[..2] == [("en_US", 100), ("en", 80)];
    DictOne("en_US", 100);
  }

  /**
   * The header in `parse_accept_language_header`'s documentation parses,
   * under both grammars, to the dictionary the documentation gives.
   */
  lemma {:induction false} DocumentedExample()
    ensures BpI18n.ParseAcceptLanguageHeader(Some(DocHeader)) == Success(Some(map["en_US" := 100, "en" := 80, "es_ES" := 50]))
    ensures BoilerplateI18n.ParseAcceptLanguageHeader(Some(DocHeader)) == Success(Some(map["en_US" := 100, "en" := 80, "es_ES" := 50]))
  {
    var es := [("en_US", 100), ("en", 80), ("es_ES", 50)];
    DocHeaderJoins();
    DocEntries();
    DocDict();
    DocScan(OneOrZeroWithFraction);
    ParseSome(DocHeader, OneOrZeroWithFraction, es);
    DocScan(OneOrZeroPointDigits);
    ParseSome(DocHeader, OneOrZeroPointDigits, es);
  }
}
