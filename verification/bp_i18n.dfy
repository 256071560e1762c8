/**
 * The i18n module the base handler uses (bp_includes/lib/i18n.py): header
 * parsing with the qvalue pattern `(1|0)(\.[0-9]+)?`, the accept-header
 * step that orders candidates by weight, the locale priority chain of
 * `set_locale`/`getLocale`, and `getLocaleStrings`.
 */
module BpI18n {
  import opened Wrappers
  import opened Text
  import opened Sorting
  import opened Web
  import opened LocaleLib
  import opened AcceptLanguage
  import opened DisplayStrings

  /** 26 weeks in seconds, the lifetime of the `hl` cookie. */
  const SixMonths: int := 26 * 7 * 24 * 60 * 60

  const Grammar: QGrammar := OneOrZeroWithFraction

  /** `parse_accept_language_header(string)`. */
  function ParseAcceptLanguageHeader(header: Option<string>): (r: Result<Option<map<string, nat>>, Fault>)
    ensures r == Success(None) <==> !Truthy(header)
    ensures r.Failure? ==> r.error == IndexError
    ensures r.Success? && r.value.Some? ==> forall t :: t in r.value.value ==> IsLocaleKey(t) && r.value.value[t] <= 199
  {
    if Truthy(header) then
      ParsedDictShape(header.value, Grammar);
      Parse(header, Grammar)
    else Parse(header, Grammar)
  }

  /** `getRequestLocation(request, field)`: the `X-AppEngine-` header named by `field`. */
  function RequestLocation(req: Request, field: string): (r: Option<string>)
    ensures r.Some? <==> "X-AppEngine-" + field in req.headers
    ensures r.Some? ==> r.value == req.headers["X-AppEngine-" + field]
  {
    Header(req, "X-AppEngine-" + field)
  }

  /** The order of `sorted(items, key=q, reverse=True)`: a heavier pair may stand first. */
  function HeavierFirst(): ((string, nat), (string, nat)) -> bool {
    (a: (string, nat), b: (string, nat)) => a.1 >= b.1
  }

  /** `parsed.items()`, in the dictionary's iteration order. */
  function Items(es: seq<(string, nat)>): (r: seq<(string, nat)>)
    ensures forall p :: p in r <==> p.0 in Dict(es) && p.1 == Dict(es)[p.0]
  {
    var d := Dict(es);
    var ks := Keys(es);
    var r := seq(|ks|, i requires 0 <= i < |ks| => (ks[i], d[ks[i]]));
    assert forall p :: p in r ==> p.0 in ks;
    assert forall t :: t in ks ==> (t, d[t]) in r by {
      forall t | t in ks
        ensures (t, d[t]) in r
      {
        var i :| 0 <= i < |ks| && ks[i] == t;
        assert r[i] == (t, d[t]);
      }
    }
    r
  }

  /** The tags handed to `Locale.negotiate`: the items sorted by weight, heaviest first, ties in iteration order. */
  function Candidates(es: seq<(string, nat)>): seq<string> {
    var sorted := Sort(Items(es), HeavierFirst());
    seq(|sorted|, i requires 0 <= i < |sorted| => sorted[i].0)
  }

  lemma {:induction false} HeavierFirstIsPreorder()
    ensures Total(HeavierFirst()) && Transitive(HeavierFirst())
  {
  }

  /** Sorting the items keeps exactly the items and orders them by weight. */
  lemma {:induction false} SortedItems(es: seq<(string, nat)>)
    ensures forall p :: p in Sort(Items(es), HeavierFirst()) <==> p in Items(es)
    ensures SortedBy(Sort(Items(es), HeavierFirst()), HeavierFirst())
  {
    HeavierFirstIsPreorder();
    SortSorted(Items(es), HeavierFirst());
    var sorted := Sort(Items(es), HeavierFirst());
    forall p
      ensures p in sorted <==> p in Items(es)
    {
      assert p in sorted <==> p in multiset(sorted);
      assert p in Items(es) <==> p in multiset(Items(es));
    }
  }

  /** The candidates are exactly the parsed tags, in non-increasing weight order. */
  lemma {:induction false} CandidatesByWeight(es: seq<(string, nat)>)
    ensures forall t :: t in Candidates(es) <==> t in Dict(es)
    ensures forall i, j :: 0 <= i < j < |Candidates(es)| ==>
      Candidates(es)[i] in Dict(es) && Candidates(es)[j] in Dict(es)
      && Dict(es)[Candidates(es)[i]] >= Dict(es)[Candidates(es)[j]]
  {
    var sorted := Sort(Items(es), HeavierFirst());
    SortedItems(es);
    var c := Candidates(es);
    var d := Dict(es);
    assert forall i :: 0 <= i < |c| ==> c[i] == sorted[i].0;
    forall t | t in d
      ensures t in c
    {
      assert (t, d[t]) in sorted;
      var i :| 0 <= i < |sorted| && sorted[i] == (t, d[t]);
      assert c[i] == t;
    }
    forall i, j | 0 <= i < j < |c|
      ensures c[i] in d && c[j] in d && d[c[i]] >= d[c[j]]
    {
      assert sorted[i] in sorted && sorted[j] in sorted;
      assert HeavierFirst()(sorted[i], sorted[j]);
    }
  }

  /**
   * `get_locale_from_accept_header(request, localeTags)`: `None` when the
   * Accept-Language header is empty or missing; otherwise `str` of Babel's
   * negotiation over the candidates, which is the string "None" when
   * nothing negotiates. The parser raises IndexError, and the negotiation
   * raises LocaleError when Babel cannot parse the tag it matched.
   */
  function GetLocaleFromAcceptHeader(req: Request, locales: seq<string>, babel: Babel): (r: Result<Option<string>, Fault>)
    ensures r.Failure? ==> r.error == IndexError || r.error == LocaleError
    ensures r.Success? && r.value.None? <==> !Truthy(Header(req, "Accept-Language"))
    ensures Truthy(Header(req, "Accept-Language")) ==>
      var parsed := ParseEntries(Header(req, "Accept-Language").value, Grammar);
      && (r == Failure(IndexError) <==> parsed.Failure?)
      && (r == Failure(LocaleError) <==> parsed.Success? && Negotiate(babel, Candidates(parsed.value), locales).Failure?)
    ensures r.Success? && r.value.Some? ==>
      exists es :: ParseEntries(Header(req, "Accept-Language").value, Grammar) == Success(es)
        && r.value.value == PyStr(babel.negotiate(Candidates(es), locales))
    ensures NegotiatesWithin(babel) && r.Success? && r.value.Some? ==> r.value.value in locales || r.value.value == "None"
  {
    var header := Header(req, "Accept-Language").GetOr("");
    if header == "" then Success(None)
    else
      ParsedDictShape(header, Grammar);
      match ParseEntries(header, Grammar)
      case Failure(e) => Failure(e)
      case Success(es) =>
        var t :- Negotiate(babel, Candidates(es), locales);
        Success(Some(PyStr(t)))
  }

  /** `tag in localeTags` for a value that may be `None`. */
  predicate In(o: Option<string>, locales: seq<string>) {
    o.Some? && o.value in locales
  }

  /**
   * `getLocale(rh, tag)`: the first usable tag of the priority chain, and the
   * request after `hl` has been taken out of the query string.
   */
  function GetLocale(req: Request, locales: seq<string>, tag: Option<string>, babel: Babel): (r: Result<(string, Request), Fault>)
    ensures r.Failure? ==> r.error in {KeyError, IndexError, LocaleError}
    ensures r.Success? ==> r.value.1 == req || r.value.1 == req.(query := RemoveKey(req.query, "hl"))
    ensures locales == [] ==> r == Success(("en", req))
  {
    if locales == [] then Success(("en", req))
    // 1. the tag argument
    else if In(tag, locales) then Success((tag.value, req))
    else
      // 2. the query string; a non-empty `hl` is consumed whether or not it is usable
      var hl := Param(req, "hl");
      var req1 :- if Truthy(hl) then DeleteQuery(req, "hl") else Success(req);
      if In(hl, locales) then Success((hl.value, req1))
      else
        // 3. the cookie
        var cookie := if "hl" in req1.cookies then Some(req1.cookies["hl"]) else None;
        if In(cookie, locales) then Success((cookie.value, req1))
        else
          var t :- Fallback(req1, locales, babel);
          Success((t, req1))
  }

  /**
   * The end of the chain, once no configured tag argument, query `hl` or
   * cookie `hl` applies. With a Babel that only returns available tags, the
   * result is a configured locale, 'en' (only when the first entry is empty),
   * or "None" from a non-empty Accept-Language header that negotiates to
   * nothing. It fails when the Accept-Language step fails, or when that
   * step gives nothing and the country's negotiation raises.
   */
  function Fallback(req: Request, locales: seq<string>, babel: Babel): (r: Result<string, Fault>)
    requires locales != []
    ensures r.Failure? ==> r.error == IndexError || r.error == LocaleError
    ensures NegotiatesWithin(babel) && r.Success? ==>
      r.value in locales || (r.value == "en" && locales[0] == "")
      || (r.value == "None" && Truthy(Header(req, "Accept-Language")))
    ensures r.Failure? <==>
      GetLocaleFromAcceptHeader(req, locales, babel).Failure?
      || (!Truthy(GetLocaleFromAcceptHeader(req, locales, babel).value) && GeoTag(req, locales, babel).Failure?)
    ensures GetLocaleFromAcceptHeader(req, locales, babel).Failure? ==>
      r == Failure(GetLocaleFromAcceptHeader(req, locales, babel).error)
    ensures GetLocaleFromAcceptHeader(req, locales, babel).Success? && GeoTag(req, locales, babel).Success? ==>
      var accepted := GetLocaleFromAcceptHeader(req, locales, babel).value;
      var geo := GeoTag(req, locales, babel).value;
      r == Success(if Truthy(accepted) then accepted.value
                   else if Truthy(geo) then geo.value
                   else if locales[0] != "" then locales[0]
                   else "en")
  {
    // 4. the Accept-Language header: any truthy result stops the chain
    var accepted :- GetLocaleFromAcceptHeader(req, locales, babel);
    if Truthy(accepted) then Success(accepted.value)
    else
      // 5. the country of the request
      var geo :- GeoTag(req, locales, babel);
      if Truthy(geo) then Success(geo.value)
      // 6. the first configured tag, 7. 'en'
      else if locales[0] != "" then Success(locales[0])
      else Success("en")
  }

  /**
   * Step 5's candidate: Babel's negotiation over the characters of the
   * request's country, when it has one; it raises when Babel cannot parse
   * the tag it matched.
   */
  function GeoTag(req: Request, locales: seq<string>, babel: Babel): (r: Result<Option<string>, Fault>)
    ensures !Truthy(RequestLocation(req, "Country")) ==> r == Success(None)
    ensures r.Failure? ==> r.error == LocaleError
    ensures Truthy(RequestLocation(req, "Country")) ==>
      var matched := babel.negotiate(Chars(RequestLocation(req, "Country").value), locales);
      (r.Failure? <==> matched.Some? && !babel.parses(matched.value))
    ensures NegotiatesWithin(babel) && r.Success? && r.value.Some? ==> r.value.value in locales
  {
    var country := RequestLocation(req, "Country");
    if Truthy(country) then Negotiate(babel, Chars(country.value), locales) else Success(None)
  }

  /**
   * `set_locale(rh, tag)`: resolve, hand the tag to the translation layer, and
   * write the `hl` cookie. Every successful call, localisation disabled or
   * not, writes `hl` = the resolved tag for 26 weeks and changes nothing else
   * in the response; the request loses at most its `hl` query parameter; the
   * only exceptions are KeyError (`hl` sent in the form body only),
   * IndexError (a five-letter tag in the Accept-Language header) and
   * LocaleError (Babel cannot parse the tag a negotiation matched).
   */
  function SetLocale(req: Request, resp: Response, locales: seq<string>, tag: Option<string>, babel: Babel): (r: Result<Resolved, Fault>)
    ensures r.Failure? ==> r.error in {KeyError, IndexError, LocaleError}
    ensures r.Success? ==> r.value.resp.setCookies == resp.setCookies + [CookieWrite("hl", r.value.tag, 15724800)]
    ensures r.Success? ==> r.value.resp.activeLocale == Some(r.value.tag)
    ensures r.Success? ==> r.value.req == req || r.value.req == req.(query := RemoveKey(req.query, "hl"))
    ensures locales == [] ==> r.Success? && r.value.tag == "en" && r.value.req == req
  {
    match GetLocale(req, locales, tag, babel)
    case Failure(e) => Failure(e)
    case Success((t, req1)) => Success(Resolved(t, req1, SetCookie(resp.(activeLocale := Some(t)), "hl", t, SixMonths)))
  }

  /**
   * Once the chain reaches the query step, a non-empty `hl` parameter is
   * removed from the query string whether or not it names a configured
   * locale; when it came only from the form body the deletion raises KeyError.
   */
  lemma {:induction false} SetLocaleConsumesQuery(req: Request, resp: Response, locales: seq<string>, tag: Option<string>, babel: Babel)
    requires locales != [] && !In(tag, locales) && Truthy(Param(req, "hl"))
    ensures !HasKey(req.query, "hl") ==> SetLocale(req, resp, locales, tag, babel) == Failure(KeyError)
    ensures SetLocale(req, resp, locales, tag, babel).Success? ==>
      SetLocale(req, resp, locales, tag, babel).value.req == req.(query := RemoveKey(req.query, "hl"))
      && !HasKey(SetLocale(req, resp, locales, tag, babel).value.req.query, "hl")
  {
  }

  /** The request is left alone when localisation is off, the tag argument wins, or there is no non-empty `hl`. */
  lemma {:induction false} SetLocaleKeepsQuery(req: Request, resp: Response, locales: seq<string>, tag: Option<string>, babel: Babel)
    requires locales == [] || In(tag, locales) || !Truthy(Param(req, "hl"))
    ensures SetLocale(req, resp, locales, tag, babel).Success?
      ==> SetLocale(req, resp, locales, tag, babel).value.req == req
  {
  }

  /**
   * The chain gets past the cookie step: no configured tag argument, query
   * `hl` or cookie `hl`, and a non-empty `hl` can be deleted from the query.
   */
  predicate PastCookie(req: Request, locales: seq<string>, tag: Option<string>) {
    && !In(tag, locales) && !In(Param(req, "hl"), locales)
    && Consumable(req, "hl")
    && !("hl" in req.cookies && req.cookies["hl"] in locales)
  }

  /**
   * The sources in priority order: a configured tag argument, then a
   * configured query `hl`, then a configured cookie `hl`, then any truthy
   * result of the Accept-Language step, then a truthy negotiation of the
   * country, then the first configured tag when it is non-empty, and 'en'
   * last. A non-empty `hl` that is not configured is consumed on the way
   * and does not stop the chain. Past the cookie the call fails when the
   * Accept-Language step fails, or when it gives nothing and the country's
   * negotiation raises.
   */
  lemma {:induction false} SetLocalePriority(req: Request, resp: Response, locales: seq<string>, tag: Option<string>, babel: Babel)
    requires locales != []
    ensures In(tag, locales) ==>
              (SetLocale(req, resp, locales, tag, babel).Success?
               && SetLocale(req, resp, locales, tag, babel).value.tag == tag.value)
    ensures !In(tag, locales) && In(Lookup(req.query, "hl"), locales) ==>
              (SetLocale(req, resp, locales, tag, babel).Success?
               && SetLocale(req, resp, locales, tag, babel).value.tag == Lookup(req.query, "hl").value)
    ensures (!In(tag, locales) && !In(Param(req, "hl"), locales) && Consumable(req, "hl")
             && "hl" in req.cookies && req.cookies["hl"] in locales) ==>
              (SetLocale(req, resp, locales, tag, babel).Success?
               && SetLocale(req, resp, locales, tag, babel).value.tag == req.cookies["hl"])
    ensures PastCookie(req, locales, tag) ==>
              (SetLocale(req, resp, locales, tag, babel).Failure?
               <==> GetLocaleFromAcceptHeader(req, locales, babel).Failure?
                    || (!Truthy(GetLocaleFromAcceptHeader(req, locales, babel).value)
                        && GeoTag(req, locales, babel).Failure?))
    ensures (PastCookie(req, locales, tag) && GetLocaleFromAcceptHeader(req, locales, babel).Failure?) ==>
              SetLocale(req, resp, locales, tag, babel) == Failure(GetLocaleFromAcceptHeader(req, locales, babel).error)
    ensures (PastCookie(req, locales, tag)
             && GetLocaleFromAcceptHeader(req, locales, babel).Success?
             && !Truthy(GetLocaleFromAcceptHeader(req, locales, babel).value)
             && GeoTag(req, locales, babel).Failure?) ==>
              SetLocale(req, resp, locales, tag, babel) == Failure(LocaleError)
    ensures (PastCookie(req, locales, tag)
             && GetLocaleFromAcceptHeader(req, locales, babel).Success?
             && Truthy(GetLocaleFromAcceptHeader(req, locales, babel).value)) ==>
              SetLocale(req, resp, locales, tag, babel).value.tag == GetLocaleFromAcceptHeader(req, locales, babel).value.value
    ensures (PastCookie(req, locales, tag)
             && GetLocaleFromAcceptHeader(req, locales, babel).Success?
             && !Truthy(GetLocaleFromAcceptHeader(req, locales, babel).value)
             && GeoTag(req, locales, babel).Success?) ==>
              SetLocale(req, resp, locales, tag, babel).value.tag ==
                (if Truthy(GeoTag(req, locales, babel).value) then GeoTag(req, locales, babel).value.value
                 else if locales[0] != "" then locales[0]
                 else "en")
  {
    if !In(tag, locales) && In(Lookup(req.query, "hl"), locales) {
      assert HasKey(req.query, "hl");
    }
    if PastCookie(req, locales, tag) {
      PastCookieSteps(req, locales, tag, babel);
    }
  }

  /** Past the cookie step the resolved tag is the one `Fallback` gives for the request. */
  lemma {:induction false} PastCookieSteps(req: Request, locales: seq<string>, tag: Option<string>, babel: Babel)
    requires locales != [] && PastCookie(req, locales, tag)
    ensures GetLocale(req, locales, tag, babel).Failure? <==> Fallback(req, locales, babel).Failure?
    ensures Fallback(req, locales, babel).Failure? ==> GetLocale(req, locales, tag, babel) == Failure(Fallback(req, locales, babel).error)
    ensures Fallback(req, locales, babel).Success? ==> GetLocale(req, locales, tag, babel).value.0 == Fallback(req, locales, babel).value
  {
    var hl := Param(req, "hl");
    var req1 := if Truthy(hl) then req.(query := RemoveKey(req.query, "hl")) else req;
    assert Truthy(hl) ==> DeleteQuery(req, "hl") == Success(req1);
    assert req1.headers == req.headers && req1.cookies == req.cookies;
    assert Fallback(req1, locales, babel) == Fallback(req, locales, babel) by {
      assert Header(req1, "Accept-Language") == Header(req, "Accept-Language");
      assert GetLocaleFromAcceptHeader(req1, locales, babel) == GetLocaleFromAcceptHeader(req, locales, babel);
      assert GeoTag(req1, locales, babel) == GeoTag(req, locales, babel);
    }
  }

  /**
   * When Babel only returns available tags, the resolved tag is a configured
   * locale, or 'en', or the string "None" that the Accept-Language step
   * returns when a non-empty header negotiates to nothing; and 'en' outside
   * the configuration only comes from disabled localisation or an empty
   * first entry.
   */
  lemma {:induction false} SetLocaleRange(req: Request, resp: Response, locales: seq<string>, tag: Option<string>, babel: Babel)
    requires NegotiatesWithin(babel)
    ensures SetLocale(req, resp, locales, tag, babel).Success? ==>
      var t := SetLocale(req, resp, locales, tag, babel).value.tag;
      t in locales || t == "en" || (t == "None" && Truthy(Header(req, "Accept-Language")))
    ensures (SetLocale(req, resp, locales, tag, babel).Success? && SetLocale(req, resp, locales, tag, babel).value.tag == "en"
             && "en" !in locales) ==> locales == [] || locales[0] == ""
  {
    GetLocaleRange(req, locales, tag, babel);
  }

  /** The same range for the resolution step alone. */
  lemma {:induction false} GetLocaleRange(req: Request, locales: seq<string>, tag: Option<string>, babel: Babel)
    requires NegotiatesWithin(babel)
    ensures GetLocale(req, locales, tag, babel).Success? ==>
      var t := GetLocale(req, locales, tag, babel).value.0;
      t in locales || t == "en" || (t == "None" && Truthy(Header(req, "Accept-Language")))
    ensures (GetLocale(req, locales, tag, babel).Success? && GetLocale(req, locales, tag, babel).value.0 == "en"
             && "en" !in locales) ==> locales == [] || locales[0] == ""
  {
    var r := GetLocale(req, locales, tag, babel);
    if r.Success? && locales != [] && !In(tag, locales) {
      var hl := Param(req, "hl");
      var req1 := r.value.1;
      assert req1 == (if Truthy(hl) then req.(query := RemoveKey(req.query, "hl")) else req);
      assert Header(req1, "Accept-Language") == Header(req, "Accept-Language");
    }
  }

  /**
   * `getLocaleStrings(handler)`: resolve the locale with no tag argument,
   * then fetch its table from the cache, building and adding it on a miss.
   * The build raises when Babel cannot parse a configured tag, or the
   * resolved tag once another tag asks for its name in it: the tag "None"
   * that an unmatched Accept-Language header yields is such a tag.
   */
  method GetLocaleStrings(req: Request, resp: Response, cache: Cache, locales: seq<string>, babel: Babel)
    returns (r: Result<Page, Fault>)
    ensures r.Failure? <==>
      SetLocale(req, resp, locales, None, babel).Failure?
      || (SetLocale(req, resp, locales, None, babel).value.tag !in cache && |locales| > 1
          && !Displayable(babel, locales, SetLocale(req, resp, locales, None, babel).value.tag))
    ensures SetLocale(req, resp, locales, None, babel).Failure? ==> r == Failure(SetLocale(req, resp, locales, None, babel).error)
    ensures SetLocale(req, resp, locales, None, babel).Success? && r.Failure? ==> r.error == LocaleError
    ensures r.Success? ==>
      var s := SetLocale(req, resp, locales, None, babel).value;
      && r.value.req == s.req && r.value.resp == s.resp
      && s.tag in r.value.cache && r.value.cache[s.tag] == r.value.strings
      && (s.tag in cache ==> r.value.strings == cache[s.tag] && r.value.cache == cache)
      && (s.tag !in cache ==>
            r.value.cache == cache[s.tag := r.value.strings] && Built(r.value.strings, s.tag, locales, babel))
    ensures r.Success? && WellKeyed(cache) ==>
              (WellKeyed(r.value.cache) && r.value.strings.tag == SetLocale(req, resp, locales, None, babel).value.tag)
  {
    match SetLocale(req, resp, locales, None, babel)
    case Failure(e) =>
      r := Failure(e);
    case Success(s) =>
      var page := GetOrBuild(cache, s.tag, locales, babel);
      if page.Failure? {
        return Failure(page.error);
      }
      r := Success(Page(page.value.0, s.req, s.resp, page.value.1));
  }

}
