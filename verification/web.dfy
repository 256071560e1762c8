/**
 * The request and response records the handlers work on: query and form
 * parameters, cookies, headers, the cookies written and the locale handed
 * to the translation layer, plus the Python exceptions the modelled code
 * can raise.
 */
module Web {
  import opened Wrappers

  /** Exceptions raised on the modelled paths. */
  datatype Fault =
    | IndexError          // `split('_')[1]` on a tag without `_`
    | KeyError            // `del request.GET['hl']` when `hl` came from the form body
    | UnboundLocalError   // reading a local that was never assigned
    | AssertionError      // a failed `assert`
    | LocaleError         // Babel's UnknownLocaleError or ValueError for a tag `Locale.parse` rejects

  /** A multi-valued parameter collection, in the order the pairs were sent. */
  type Params = seq<(string, string)>

  datatype Request = Request(
    verb: string,                   // request.method
    path: string,
    query: Params,                  // request.GET
    form: Params,                   // request.POST
    cookies: map<string, string>,
    headers: map<string, string>)

  datatype CookieWrite = CookieWrite(name: string, value: string, maxAge: int)

  /**
   * What a handler has produced so far: the cookies it set, in order, and the
   * locale last handed to the request's translation object (`None` until set).
   */
  datatype Response = Response(setCookies: seq<CookieWrite>, activeLocale: Option<string>)

  /** The outcome of `set_locale`: the resolved tag and the request and response after it. */
  datatype Resolved = Resolved(tag: string, req: Request, resp: Response)

  predicate HasKey(ps: Params, key: string) {
    exists i :: 0 <= i < |ps| && ps[i].0 == key
  }

  /** The first value sent for `key`, if any (a MultiDict's `getall(key)[0]`). */
  function Lookup(ps: Params, key: string): (r: Option<string>)
    ensures r.Some? <==> HasKey(ps, key)
    ensures r.Some? ==> (key, r.value) in ps
  {
    if ps == [] then None
    else if ps[0].0 == key then Some(ps[0].1)
    else
      var r := Lookup(ps[1..], key);
      assert HasKey(ps[1..], key) ==> HasKey(ps, key);
      assert HasKey(ps, key) ==> HasKey(ps[1..], key) by {
        if HasKey(ps, key) {
          var i :| 0 <= i < |ps| && ps[i].0 == key;
          assert ps[1..][i - 1].0 == key;
        }
      }
      r
  }

  /**
   * `request.get(name, default)`: the parameters are GET followed by POST, and
   * the first value wins; `None` here stands for "use the default".
   */
  function Param(req: Request, name: string): (r: Option<string>)
    ensures r.None? <==> !HasKey(req.query, name) && !HasKey(req.form, name)
    ensures HasKey(req.query, name) ==> r == Lookup(req.query, name)
  {
    match Lookup(req.query, name)
    case Some(v) => Some(v)
    case None => Lookup(req.form, name)
  }

  /** Every pair of `ps` whose key is not `key`, in order. */
  function RemoveKey(ps: Params, key: string): (r: Params)
    ensures !HasKey(r, key)
    ensures forall p :: p in r <==> p in ps && p.0 != key
    ensures |r| <= |ps|
    ensures !HasKey(ps, key) ==> r == ps
  {
    if ps == [] then []
    else
      var rest := RemoveKey(ps[1..], key);
      assert !HasKey(ps, key) ==> !HasKey(ps[1..], key) by {
        if HasKey(ps[1..], key) {
          var i :| 0 <= i < |ps[1..]| && ps[1..][i].0 == key;
          assert ps[i + 1].0 == key;
        }
      }
      assert ps == [ps[0]] + ps[1..];
      if ps[0].0 == key then rest else [ps[0]] + rest
  }

  /** `del request.GET[key]`: drops every value of `key`, or raises KeyError if there is none. */
  function DeleteQuery(req: Request, key: string): (r: Result<Request, Fault>)
    ensures r.Failure? <==> !HasKey(req.query, key)
    ensures r.Failure? ==> r.error == KeyError
    ensures r.Success? ==> r.value == req.(query := RemoveKey(req.query, key))
  {
    if HasKey(req.query, key) then Success(req.(query := RemoveKey(req.query, key)))
    else Failure(KeyError)
  }

  /**
   * Both i18n modules read `request.get(key)` and, when it is non-empty,
   * `del request.GET[key]`: the deletion goes through unless the value came
   * from the form body alone.
   */
  predicate Consumable(req: Request, key: string) {
    HasKey(req.query, key) || !Truthy(Param(req, key))
  }

  /** `request.headers.get(name)`. */
  function Header(req: Request, name: string): Option<string> {
    if name in req.headers then Some(req.headers[name]) else None
  }

  /** `response.set_cookie(name, value, max_age=maxAge)` appends to the written cookies. */
  function SetCookie(resp: Response, name: string, value: string, maxAge: int): (r: Response)
    ensures r.setCookies == resp.setCookies + [CookieWrite(name, value, maxAge)]
    ensures r.activeLocale == resp.activeLocale
  {
    resp.(setCookies := resp.setCookies + [CookieWrite(name, value, maxAge)])
  }

  /** Python truthiness of an optional string: present and non-empty. */
  predicate Truthy(o: Option<string>) {
    o.Some? && o.value != ""
  }

  /** The query string re-encoded from GET, `k=v` pairs joined by `&` (no escaping). */
  function QueryString(ps: Params): (r: string)
    ensures r == "" <==> ps == []
  {
    if ps == [] then ""
    else if |ps| == 1 then ps[0].0 + "=" + ps[0].1
    else QueryString(ps[..|ps| - 1]) + "&" + ps[|ps| - 1].0 + "=" + ps[|ps| - 1].1
  }

  /** webob's `request.path_qs`: the path, then `?` and the query string when that is non-empty. */
  function PathQs(req: Request): (r: string)
    ensures req.query == [] ==> r == req.path
    ensures req.query != [] ==> r == req.path + "?" + QueryString(req.query) && |r| > |req.path| + 1
  {
    var qs := QueryString(req.query);
    if qs == "" then req.path else req.path + "?" + qs
  }
}
