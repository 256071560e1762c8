/**
 * The pieces of the request handler base class that the locale work feeds
 * into (bp_includes/lib/basehandler.py): the CSRF guard run before every
 * dispatch, the time-zone and country choice lists offered on forms, and the
 * `path_qs` handed to templates for building language-switch links.
 */
module BaseHandler {
  import opened Wrappers
  import opened Text
  import opened Sorting
  import opened Web

  /** What `dispatch` does with a request once the CSRF guard has run. */
  datatype CsrfDecision = Proceed | Forbidden   // Forbidden is `abort(403)`

  /**
   * The guard in `dispatch`: a POST outside `/taskqueue` needs a non-empty
   * session token equal to the `_csrf_token` request parameter (which reads
   * as "" when absent). `sessionToken` is `session.get('_csrf_token')`.
   */
  function CsrfCheck(req: Request, sessionToken: Option<string>): (r: CsrfDecision)
    ensures req.verb != "POST" ==> r == Proceed
    ensures StartsWith(req.path, "/taskqueue") ==> r == Proceed
    ensures r == Proceed && req.verb == "POST" && !StartsWith(req.path, "/taskqueue") ==>
      Truthy(sessionToken) && Param(req, "_csrf_token") == sessionToken
    ensures Truthy(sessionToken) && Param(req, "_csrf_token") == sessionToken ==> r == Proceed
    ensures !Truthy(sessionToken) && req.verb == "POST" && !StartsWith(req.path, "/taskqueue") ==> r == Forbidden
  {
    if req.verb == "POST" && !StartsWith(req.path, "/taskqueue") then
      var token := sessionToken.GetOr("");
      if token == "" || token != Param(req, "_csrf_token").GetOr("") then Forbidden else Proceed
    else Proceed
  }

  /** The label shown for a time-zone name: underscores read as spaces. */
  function ZoneLabel(zone: string): (r: string)
    ensures |r| == |zone| && '_' !in r
    ensures forall i :: 0 <= i < |zone| && zone[i] != '_' ==> r[i] == zone[i]
  {
    ReplaceChar(zone, '_', ' ')
  }

  /** For a zone name without spaces the label gives the name back. */
  lemma {:induction false} ZoneLabelRoundTrip(zone: string)
    requires ' ' !in zone
    ensures ReplaceChar(ZoneLabel(zone), ' ', '_') == zone
  {
  }

  /**
   * The `tz` choice list: a blank choice first, then every zone of the time
   * zone database in its order, paired with its label. `zones` stands for
   * `pytz.all_timezones`.
   */
  function TimezoneChoices(zones: seq<string>): (r: seq<(string, string)>)
    ensures |r| == |zones| + 1
    ensures r[0] == ("", "")
    ensures forall i :: 1 <= i < |r| ==> r[i].0 == zones[i - 1] && r[i].1 == ZoneLabel(zones[i - 1])
  {
    [("", "")] + seq(|zones|, i requires 0 <= i < |zones| => (zones[i], ZoneLabel(zones[i])))
  }

  /** The order of `sort(key=lambda tup: tup[1])`: by display name. */
  function ByName(): ((string, string), (string, string)) -> bool {
    (a: (string, string), b: (string, string)) => StrLe(a.1, b.1)
  }

  lemma {:induction false} ByNameIsPreorder()
    ensures Total(ByName()) && Transitive(ByName())
  {
    forall a: (string, string), b: (string, string)
      ensures ByName()(a, b) || ByName()(b, a)
    {
      StrLtTotal(a.1, b.1);
    }
    forall a: (string, string), b: (string, string), c: (string, string) | ByName()(a, b) && ByName()(b, c)
      ensures ByName()(a, c)
    {
      if a.1 != b.1 && b.1 != c.1 {
        StrLtTransitive(a.1, b.1, c.1);
      }
    }
  }

  /** No string sorts strictly before the empty one. */
  lemma {:induction false} NothingBeforeEmpty(a: string)
    ensures StrLe(a, "") ==> a == ""
  {
  }

  /**
   * `countries_tuple`: the territories of the current locale as (code, name)
   * pairs without the code "001" (the world), plus a blank choice, sorted by
   * name. `territories` stands for `Locale.parse(tag).territories`.
   */
  function CountriesTuple(territories: seq<(string, string)>): (r: seq<(string, string)>)
    ensures multiset(r) == multiset(RemoveKey(territories, "001")) + multiset{("", "")}
    ensures forall p :: p in r <==> p == ("", "") || (p in territories && p.0 != "001")
    ensures SortedBy(r, ByName())
    ensures r != [] && r[0].1 == ""
  {
    var rows := RemoveKey(territories, "001") + [("", "")];
    ByNameIsPreorder();
    SortSorted(rows, ByName());
    var r := Sort(rows, ByName());
    assert forall p :: p in r <==> p in multiset(rows);
    BlankFirst(r);
    r
  }

  /** In a list sorted by name that holds the blank choice, the first name is blank. */
  lemma {:induction false} BlankFirst(r: seq<(string, string)>)
    requires SortedBy(r, ByName()) && ("", "") in r
    ensures r[0].1 == ""
  {
    var k :| 0 <= k < |r| && r[k] == ("", "");
    if k > 0 {
      assert ByName()(r[0], r[k]);
      NothingBeforeEmpty(r[0].1);
    }
  }

  /**
   * The `path_qs` passed to templates: `request.path_qs`, with "?" appended
   * when GET is empty. Whatever the query, the result is the path, a "?", and
   * the query string, so templates can append parameters directly.
   */
  function TemplatePathQs(req: Request): (r: string)
    ensures r == req.path + "?" + QueryString(req.query)
    ensures StartsWith(r, req.path + "?")
  {
    var pathQs := PathQs(req);
    if |req.query| == 0 then pathQs + "?" else pathQs
  }
}
