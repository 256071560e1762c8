/**
 * The older i18n module (boilerplate/lib/i18n.py): header parsing with the
 * qvalue pattern `1|0\.[0-9]+`, an accept-header step that orders the tags
 * themselves in reverse lexicographic order, a priority chain that checks
 * every source against the configured locales, and `getLocaleStrings`.
 */
module BoilerplateI18n {
  import opened Wrappers
  import opened Text
  import opened Sorting
  import opened Web
  import opened LocaleLib
  import opened AcceptLanguage
  import opened DisplayStrings

  /** The lifetime of the `hl` cookie in seconds (26 weeks). */
  const CookieMaxAge: int := 15724800

  const Grammar: QGrammar := OneOrZeroPointDigits

  /** `parse_accept_language_header(string)`. */
  function ParseAcceptLanguageHeader(header: Option<string>): (r: Result<Option<map<string, nat>>, Fault>)
    ensures r == Success(None) <==> !Truthy(header)
    ensures r.Failure? ==> r.error == IndexError
    ensures r.Success? && r.value.Some? ==> forall t :: t in r.value.value ==> IsLocaleKey(t) && r.value.value[t] <= 100
  {
    if Truthy(header) then
      ParsedDictShape(header.value, Grammar);
      Parse(header, Grammar)
    else Parse(header, Grammar)
  }

  /**
   * Every weight this module parses lies in [0, 100]; the per-qvalue bound
   * of 99 for a qvalue other than `1` is `QValueWeightBound`'s.
   */
  lemma {:induction false} ParsedWeightsAtMost100(header: string)
    ensures ParseAcceptLanguageHeader(Some(header)).Success? && ParseAcceptLanguageHeader(Some(header)).value.Some? ==>
      var d := ParseAcceptLanguageHeader(Some(header)).value.value;
      forall t :: t in d ==> 0 <= d[t] <= 100
  {
    ParsedDictShape(header, Grammar);
  }

  /** The order of `sorted(keys, reverse=True)`: the later string may stand first. */
  function LaterFirst(): (string, string) -> bool {
    (a: string, b: string) => StrLe(b, a)
  }

  lemma {:induction false} LaterFirstIsPreorder()
    ensures Total(LaterFirst()) && Transitive(LaterFirst())
  {
    forall a, b
      ensures LaterFirst()(a, b) || LaterFirst()(b, a)
    {
      StrLtTotal(a, b);
    }
    forall a, b, c | LaterFirst()(a, b) && LaterFirst()(b, c)
      ensures LaterFirst()(a, c)
    {
      if c != b && b != a {
        StrLtTransitive(c, b, a);
      }
    }
  }

  /** The tags handed to `Locale.negotiate`: `sorted(parsed.iterkeys(), reverse=True)`. */
  function Candidates(es: seq<(string, nat)>): seq<string> {
    Sort(Keys(es), LaterFirst())
  }

  ghost predicate StrictlyDescending(s: seq<string>) {
    forall i, j :: 0 <= i < j < |s| ==> StrLt(s[j], s[i])
  }

  /** The candidates are exactly the parsed tags, each once, in strictly decreasing string order. */
  lemma {:induction false} CandidatesReverseSorted(es: seq<(string, nat)>)
    ensures forall t :: t in Candidates(es) <==> t in Dict(es)
    ensures StrictlyDescending(Candidates(es))
  {
    var ks := Keys(es);
    var c := Candidates(es);
    LaterFirstIsPreorder();
    SortSorted(ks, LaterFirst());
    DistinctMultiplicity(ks);
    MultiplicityDistinct(c);
    forall t
      ensures t in c <==> t in ks
    {
      assert t in c <==> t in multiset(c);
      assert t in ks <==> t in multiset(ks);
    }
    forall i, j | 0 <= i < j < |c|
      ensures StrLt(c[j], c[i])
    {
      assert LaterFirst()(c[i], c[j]);
    }
  }

  /** Two strictly decreasing sequences with the same members are equal. */
  lemma {:induction false} DescendingUnique(a: seq<string>, b: seq<string>)
    requires StrictlyDescending(a) && StrictlyDescending(b)
    requires forall t :: t in a <==> t in b
    ensures a == b
  {
    if a != [] {
      assert a[0] in a;
    }
    if b != [] {
      assert b[0] in b;
    }
    if a != [] && b != [] {
      assert b[0] in a;
      assert a[0] in b;
      var i :| 0 <= i < |a| && a[i] == b[0];
      var j :| 0 <= j < |b| && b[j] == a[0];
      if a[0] != b[0] {
        assert StrLt(b[0], a[0]);
        assert StrLt(a[0], b[0]);
        StrLtAsymmetric(a[0], b[0]);
      }
      forall t
        ensures t in a[1..] <==> t in b[1..]
      {
        if t in a[1..] {
          var k :| 0 <= k < |a[1..]| && a[1..][k] == t;
          assert StrLt(a[k + 1], a[0]);
          StrLtIrreflexive(t);
          assert t in b;
          var m :| 0 <= m < |b| && b[m] == t;
          assert m != 0;
          assert b[1..][m - 1] == t;
        }
        if t in b[1..] {
          var k :| 0 <= k < |b[1..]| && b[1..][k] == t;
          assert StrLt(b[k + 1], b[0]);
          StrLtIrreflexive(t);
          assert t in a;
          var m :| 0 <= m < |a| && a[m] == t;
          assert m != 0;
          assert a[1..][m - 1] == t;
        }
      }
      DescendingUnique(a[1..], b[1..]);
      assert a == [a[0]] + a[1..] && b == [b[0]] + b[1..];
    }
  }

  /**
   * The candidate list depends on the set of parsed tags alone: two headers
   * whose dictionaries have the same keys negotiate over the same list,
   * whatever order the tags were written in.
   */
  lemma {:induction false} CandidatesDeterminedByTags(es1: seq<(string, nat)>, es2: seq<(string, nat)>)
    requires Dict(es1).Keys == Dict(es2).Keys
    ensures Candidates(es1) == Candidates(es2)
  {
    CandidatesReverseSorted(es1);
    CandidatesReverseSorted(es2);
    DescendingUnique(Candidates(es1), Candidates(es2));
  }

  /**
   * `get_locale_from_accept_header(request)`: `None` when the header is empty
   * or missing; otherwise `str` of Babel's negotiation over the tags in
   * reverse order ("None" when nothing negotiates). The parser raises
   * IndexError, and the negotiation raises LocaleError when Babel cannot
   * parse the tag it matched.
   */
  function GetLocaleFromAcceptHeader(req: Request, locales: seq<string>, babel: Babel): (r: Result<Option<string>, Fault>)
    ensures r.Failure? ==> r.error == IndexError || r.error == LocaleError
    ensures r.Success? && r.value.None? <==> !Truthy(Header(req, "Accept-Language"))
    ensures Truthy(Header(req, "Accept-Language")) ==>
      var parsed := ParseEntries(Header(req, "Accept-Language").value, Grammar);
      && (r == Failure(IndexError) <==> parsed.Failure?)
      && (r == Failure(LocaleError) <==> parsed.Success? && Negotiate(babel, Candidates(parsed.value), locales).Failure?)
    ensures r.Success? && r.value.Some? ==>
      exists es :: ParseEntries(Header(req, "Accept-Language").value, Grammar) == Success(es)
        && r.value.value == PyStr(babel.negotiate(Candidates(es), locales))
  {
    var header := Header(req, "Accept-Language").GetOr("");
    if header == "" then Success(None)
    else
      ParsedDictShape(header, Grammar);
      match ParseEntries(header, Grammar)
      case Failure(e) => Failure(e)
      case Success(es) =>
        var t :- Negotiate(babel, Candidates(es), locales);
        Success(Some(PyStr(t)))
  }

  /** A Python local that may never have been assigned. */
  datatype Local<T> = Unbound | Bound(value: T)

  /** `x in locales` for a value that may be `None`. */
  predicate In(o: Option<string>, locales: seq<string>) {
    o.Some? && o.value in locales
  }

  /**
   * Steps 1 to 6 of `set_locale` for configured `locales`: the chosen tag and
   * the local `qs` (unbound when the `force` tag was taken). Each source is
   * taken only if it is a configured locale, so the tag always is one.
   * Past the cookie it fails when the Accept-Language step fails, or when
   * that step gives no configured tag and the territory's negotiation
   * raises.
   */
  function Chain(req: Request, locales: seq<string>, force: Option<string>, territory: Option<string>, babel: Babel)
    : (r: Result<(string, Local<Option<string>>), Fault>)
    requires locales != []
    ensures r.Success? ==> r.value.0 in locales
    ensures r.Failure? ==> r.error == IndexError || r.error == LocaleError
    ensures r.Success? && r.value.1.Unbound? <==> In(force, locales)
    ensures !In(force, locales) && r.Success? ==> r.value.1 == Bound(Param(req, "hl"))
    ensures !PastCookie(req, locales, force) ==> r.Success?
    ensures PastCookie(req, locales, force) ==>
              (r.Failure? <==> GetLocaleFromAcceptHeader(req, locales, babel).Failure?
                               || (PastHeader(req, locales, force, babel) && GeoTag(locales, territory, babel).Failure?))
    ensures PastCookie(req, locales, force) && GetLocaleFromAcceptHeader(req, locales, babel).Failure? ==>
              r == Failure(GetLocaleFromAcceptHeader(req, locales, babel).error)
    ensures PastHeader(req, locales, force, babel) && GeoTag(locales, territory, babel).Failure? ==>
              r == Failure(LocaleError)
    ensures PastHeader(req, locales, force, babel) && GeoTag(locales, territory, babel).Success? ==>
              r.Success? && r.value.0 == (if GeoTag(locales, territory, babel).value in locales
                                          then GeoTag(locales, territory, babel).value else locales[0])
  {
    // 1. the forced tag
    if In(force, locales) then Success((force.value, Unbound))
    else
      // 2. the query string
      var qs := Param(req, "hl");
      if In(qs, locales) then Success((qs.value, Bound(qs)))
      else
        // 3. the cookie
        var cookie := if "hl" in req.cookies then Some(req.cookies["hl"]) else None;
        if In(cookie, locales) then Success((cookie.value, Bound(qs)))
        else
          // 4. the Accept-Language header
          var accepted :- GetLocaleFromAcceptHeader(req, locales, babel);
          if In(accepted, locales) then Success((accepted.value, Bound(qs)))
          else
            // 5. the territory of the client address
            var geo :- GeoTag(locales, territory, babel);
            if geo in locales then Success((geo, Bound(qs)))
            // 6. the first configured locale
            else Success((locales[0], Bound(qs)))
  }

  /**
   * Step 5's candidate: `str` of Babel's negotiation over the characters of
   * the territory, 'ZZ' when unknown; it raises when Babel cannot parse the
   * tag it matched.
   */
  function GeoTag(locales: seq<string>, territory: Option<string>, babel: Babel): (r: Result<string, Fault>)
    ensures r.Success? ==>
      r.value == PyStr(babel.negotiate(Chars(if Truthy(territory) then territory.value else "ZZ"), locales))
    ensures r.Failure? ==> r.error == LocaleError
    ensures r.Failure? <==> Negotiate(babel, Chars(if Truthy(territory) then territory.value else "ZZ"), locales).Failure?
    ensures NegotiatesWithin(babel) && r.Success? ==> r.value in locales || r.value == "None"
  {
    var country := if Truthy(territory) then territory.value else "ZZ";
    var t :- Negotiate(babel, Chars(country), locales);
    Success(PyStr(t))
  }

  /** No forced tag, query `hl` or cookie `hl` is configured: the chain goes on to the Accept-Language step. */
  predicate PastCookie(req: Request, locales: seq<string>, force: Option<string>) {
    && !In(force, locales) && !In(Param(req, "hl"), locales)
    && !("hl" in req.cookies && req.cookies["hl"] in locales)
  }

  /** The chain gets past the Accept-Language step too. */
  predicate PastHeader(req: Request, locales: seq<string>, force: Option<string>, babel: Babel) {
    && PastCookie(req, locales, force)
    && GetLocaleFromAcceptHeader(req, locales, babel).Success?
    && !In(GetLocaleFromAcceptHeader(req, locales, babel).value, locales)
  }

  /**
   * `set_locale(rh, force)`, with the result of `get_territory_from_ip(rh)`
   * passed in as `territory`. Falsy `locales` returns 'en' and touches
   * nothing; otherwise the tag is always a configured locale, a non-empty
   * query `hl` is consumed and the `hl` cookie is written. The exceptions:
   * AssertionError for an empty resolved tag, UnboundLocalError when the
   * forced tag was taken (the local `qs` is read without being assigned),
   * KeyError when `hl` came only from the form body, IndexError from the
   * header parser, and LocaleError when Babel cannot parse the tag a
   * negotiation matched.
   */
  function SetLocale(req: Request, resp: Response, locales: seq<string>, force: Option<string>,
                     territory: Option<string>, babel: Babel): (r: Result<Resolved, Fault>)
    ensures locales == [] ==> r == Success(Resolved("en", req, resp))
    ensures r.Failure? ==> r.error in {AssertionError, UnboundLocalError, KeyError, IndexError, LocaleError}
    ensures locales != [] && r.Success? ==> r.value.tag in locales && r.value.tag != ""
    ensures locales != [] && r.Success? ==>
      r.value.resp == SetCookie(resp.(activeLocale := Some(r.value.tag)), "hl", r.value.tag, CookieMaxAge)
    ensures r.Success? ==> r.value.req == req || r.value.req == req.(query := RemoveKey(req.query, "hl"))
  {
    if locales == [] then Success(Resolved("en", req, resp))
    else
      var (tag, qs) :- Chain(req, locales, force, territory, babel);
      if tag == "" then Failure(AssertionError)
      else match qs
        case Unbound => Failure(UnboundLocalError)
        case Bound(q) =>
          var req1 :- if Truthy(q) then DeleteQuery(req, "hl") else Success(req);
          Success(Resolved(tag, req1, SetCookie(resp.(activeLocale := Some(tag)), "hl", tag, CookieMaxAge)))
  }

  /** A forced tag that is configured always ends in an exception: `qs` was never assigned. */
  lemma {:induction false} ForcedTagRaises(req: Request, resp: Response, locales: seq<string>, force: Option<string>,
                        territory: Option<string>, babel: Babel)
    requires In(force, locales)
    ensures SetLocale(req, resp, locales, force, territory, babel)
      == Failure(if force.value == "" then AssertionError else UnboundLocalError)
  {
  }

  /** Without a forced tag, UnboundLocalError cannot happen. */
  lemma {:induction false} NoForceNoUnbound(req: Request, resp: Response, locales: seq<string>, territory: Option<string>, babel: Babel)
    ensures SetLocale(req, resp, locales, None, territory, babel) != Failure(UnboundLocalError)
  {
  }

  /**
   * A non-empty query `hl` that was read is deleted whether or not it
   * matched; when it came only from the form body the call fails.
   */
  lemma {:induction false} SetLocaleConsumesQuery(req: Request, resp: Response, locales: seq<string>, force: Option<string>,
                               territory: Option<string>, babel: Babel)
    requires locales != [] && !In(force, locales) && Truthy(Param(req, "hl"))
    ensures !HasKey(req.query, "hl") ==> SetLocale(req, resp, locales, force, territory, babel).Failure?
    ensures SetLocale(req, resp, locales, force, territory, babel).Success? ==>
      SetLocale(req, resp, locales, force, territory, babel).value.req == req.(query := RemoveKey(req.query, "hl"))
  {
  }

  /**
   * Sources in priority order once the forced tag is not configured: the
   * query `hl`, then the cookie `hl`, then the Accept-Language result, then
   * the negotiated territory, each only if configured, and the first
   * configured locale last. An empty winner fails the `assert`; otherwise
   * the call goes through unless a non-empty `hl` came only from the form
   * body. A negotiation whose matched tag Babel cannot parse raises
   * instead.
   */
  lemma {:induction false} SetLocalePriority(req: Request, resp: Response, locales: seq<string>, force: Option<string>,
                          territory: Option<string>, babel: Babel)
    requires locales != [] && !In(force, locales)
    ensures In(Param(req, "hl"), locales) && Param(req, "hl").value != "" && Consumable(req, "hl") ==>
              SetLocale(req, resp, locales, force, territory, babel).Success?
              && SetLocale(req, resp, locales, force, territory, babel).value.tag == Param(req, "hl").value
    ensures (!In(Param(req, "hl"), locales) && "hl" in req.cookies && req.cookies["hl"] in locales
             && req.cookies["hl"] != "" && Consumable(req, "hl")) ==>
              SetLocale(req, resp, locales, force, territory, babel).Success?
              && SetLocale(req, resp, locales, force, territory, babel).value.tag == req.cookies["hl"]
    ensures (PastCookie(req, locales, force)
             && GetLocaleFromAcceptHeader(req, locales, babel).Success?
             && In(GetLocaleFromAcceptHeader(req, locales, babel).value, locales)
             && GetLocaleFromAcceptHeader(req, locales, babel).value.value != "" && Consumable(req, "hl")) ==>
              SetLocale(req, resp, locales, force, territory, babel).Success?
              && SetLocale(req, resp, locales, force, territory, babel).value.tag == GetLocaleFromAcceptHeader(req, locales, babel).value.value
    ensures (PastCookie(req, locales, force) && GetLocaleFromAcceptHeader(req, locales, babel).Failure?) ==>
              SetLocale(req, resp, locales, force, territory, babel) == Failure(GetLocaleFromAcceptHeader(req, locales, babel).error)
    ensures PastHeader(req, locales, force, babel) && GeoTag(locales, territory, babel).Failure? ==>
              SetLocale(req, resp, locales, force, territory, babel) == Failure(LocaleError)
    ensures PastHeader(req, locales, force, babel) && GeoTag(locales, territory, babel).Success? ==>
              var t := if GeoTag(locales, territory, babel).value in locales then GeoTag(locales, territory, babel).value else locales[0];
              && (t == "" ==> SetLocale(req, resp, locales, force, territory, babel) == Failure(AssertionError))
              && (t != "" && Consumable(req, "hl") ==>
                    SetLocale(req, resp, locales, force, territory, babel).Success?
                    && SetLocale(req, resp, locales, force, territory, babel).value.tag == t)
  {
    SetLocaleOfChain(req, resp, locales, force, territory, babel);
  }

  /**
   * Once the chain settles on a tag, `set_locale` returns it, or fails the
   * `assert` when it is empty; when the chain raises, so does `set_locale`.
   */
  lemma {:induction false} SetLocaleOfChain(req: Request, resp: Response, locales: seq<string>, force: Option<string>,
                         territory: Option<string>, babel: Babel)
    requires locales != [] && !In(force, locales)
    ensures Chain(req, locales, force, territory, babel).Failure? ==>
              SetLocale(req, resp, locales, force, territory, babel) == Failure(Chain(req, locales, force, territory, babel).error)
    ensures Chain(req, locales, force, territory, babel).Success? ==>
              var t := Chain(req, locales, force, territory, babel).value.0;
              && (t == "" ==> SetLocale(req, resp, locales, force, territory, babel) == Failure(AssertionError))
              && (t != "" && Consumable(req, "hl") ==>
                    SetLocale(req, resp, locales, force, territory, babel).Success?
                    && SetLocale(req, resp, locales, force, territory, babel).value.tag == t)
  {
  }

  /**
   * `getLocaleStrings(handler)`: resolve the locale with no forced tag, then
   * fetch its table from the cache, building and adding it on a miss. The
   * build raises when Babel cannot parse a configured tag, or the resolved
   * tag once another tag asks for its name in it.
   */
  method GetLocaleStrings(req: Request, resp: Response, cache: Cache, locales: seq<string>,
                          territory: Option<string>, babel: Babel)
    returns (r: Result<Page, Fault>)
    ensures r.Failure? <==>
      SetLocale(req, resp, locales, None, territory, babel).Failure?
      || (SetLocale(req, resp, locales, None, territory, babel).value.tag !in cache && |locales| > 1
          && !Displayable(babel, locales, SetLocale(req, resp, locales, None, territory, babel).value.tag))
    ensures SetLocale(req, resp, locales, None, territory, babel).Failure? ==> r == Failure(SetLocale(req, resp, locales, None, territory, babel).error)
    ensures SetLocale(req, resp, locales, None, territory, babel).Success? && r.Failure? ==> r.error == LocaleError
    ensures r.Success? ==>
      var s := SetLocale(req, resp, locales, None, territory, babel).value;
      && r.value.req == s.req && r.value.resp == s.resp
      && s.tag in r.value.cache && r.value.cache[s.tag] == r.value.strings
      && (s.tag in cache ==> r.value.strings == cache[s.tag] && r.value.cache == cache)
      && (s.tag !in cache ==>
            r.value.cache == cache[s.tag := r.value.strings] && Built(r.value.strings, s.tag, locales, babel))
    ensures r.Success? && WellKeyed(cache) ==>
              (WellKeyed(r.value.cache) && r.value.strings.tag == SetLocale(req, resp, locales, None, territory, babel).value.tag)
  {
    match SetLocale(req, resp, locales, None, territory, babel)
    case Failure(e) =>
      r := Failure(e);
    case Success(s) =>
      var page := GetOrBuild(cache, s.tag, locales, babel);
      if page.Failure? {
        return Failure(page.error);
      }
      r := Success(Page(page.value.0, s.req, s.resp, page.value.1));
  }

}
