/**
 * The per-locale table of display strings (`LocaleStrings`) and the shared
 * cache it is kept in. The class and the cache logic read the same in both
 * i18n modules, so they are modelled once.
 */
module DisplayStrings {
  import opened Wrappers
  import opened LocaleLib
  import opened Web

  /** One entry of `others`: the tag, its name in the current locale, its name in itself. */
  datatype DisplayTriple = DisplayTriple(tag: string, foreign: string, native: string)

  /**
   * `current` is the Python attribute `this`, the current locale's own name;
   * it is `None` when the attribute was never assigned (the current tag is
   * not configured, or the table is disabled).
   */
  datatype LocaleStrings = LocaleStrings(
    enabled: bool,
    tag: string,
    current: Option<string>,
    others: seq<DisplayTriple>)

  /** `tags` with every occurrence of `t` removed, order kept. */
  function Without(tags: seq<string>, t: string): (r: seq<string>)
    ensures multiset(r) == multiset(tags)[t := 0]
    ensures t !in r
  {
    if tags == [] then []
    else
      assert tags == [tags[0]] + tags[1..];
      var rest := Without(tags[1..], t);
      if tags[0] == t then rest else [tags[0]] + rest
  }

  /** The triple the loop appends for a tag `lt` other than the current tag `ctag`. */
  function Triple(babel: Babel, lt: string, ctag: string): DisplayTriple {
    DisplayTriple(lt, babel.displayNameIn(lt, ctag), babel.displayName(lt))
  }

  /** The triples for `lts`, in order. */
  function TriplesFor(babel: Babel, lts: seq<string>, ctag: string): (r: seq<DisplayTriple>)
    ensures |r| == |lts|
    ensures forall i :: 0 <= i < |lts| ==> r[i].tag == lts[i]
  {
    seq(|lts|, i requires 0 <= i < |lts| => Triple(babel, lts[i], ctag))
  }

  /**
   * The loop over `tags` raises nothing: `Locale.parse` accepts every
   * configured tag, and accepts `ctag` too whenever some other tag asks for
   * its name in `ctag` (`get_display_name(ctag)` parses `ctag`).
   */
  predicate Displayable(babel: Babel, tags: seq<string>, ctag: string) {
    forall i :: 0 <= i < |tags| ==> babel.parses(tags[i]) && (tags[i] != ctag ==> babel.parses(ctag))
  }

  /**
   * The table `LocaleStrings(ctag, locale_tags)` holds when its constructor
   * returns: enabled iff more than one tag is configured; when enabled, one
   * triple per configured tag other than `ctag` in configuration order, and
   * the own name of `ctag` exactly when `ctag` is configured; when disabled,
   * nothing.
   */
  predicate Built(ls: LocaleStrings, ctag: string, tags: seq<string>, babel: Babel) {
    && ls.tag == ctag
    && (ls.enabled <==> |tags| > 1)
    && ls.others == (if ls.enabled then TriplesFor(babel, Without(tags, ctag), ctag) else [])
    && (ls.current.Some? <==> ls.enabled && ctag in tags)
    && (ls.current.Some? ==> ls.current.value == babel.displayName(ctag))
  }

  /**
   * `LocaleStrings(ctag, locale_tags)`: a disabled table never calls Babel;
   * an enabled one raises exactly when some tag of the loop does not parse.
   */
  method Build(ctag: string, tags: seq<string>, babel: Babel) returns (r: Result<LocaleStrings, Fault>)
    ensures r.Failure? <==> |tags| > 1 && !Displayable(babel, tags, ctag)
    ensures r.Failure? ==> r.error == LocaleError
    ensures r.Success? ==> Built(r.value, ctag, tags, babel)
  {
    var enabled := |tags| > 1;
    var current: Option<string> := None;
    var others: seq<DisplayTriple> := [];
    if enabled {
      var c := Collect(ctag, tags, babel);
      if c.Failure? {
        return Failure(c.error);
      }
      current, others := c.value.0, c.value.1;
    }
    r := Success(LocaleStrings(enabled, ctag, current, others));
  }

  /**
   * The loop over the configured tags: the own name of `ctag` and the
   * triples of the others, or LocaleError at the first tag that does not
   * parse (or the first other tag, when `ctag` does not parse).
   */
  method Collect(ctag: string, tags: seq<string>, babel: Babel)
    returns (r: Result<(Option<string>, seq<DisplayTriple>), Fault>)
    ensures r.Failure? <==> !Displayable(babel, tags, ctag)
    ensures r.Failure? ==> r.error == LocaleError
    ensures r.Success? ==> r.value.1 == TriplesFor(babel, Without(tags, ctag), ctag)
    ensures r.Success? ==> (r.value.0.Some? <==> ctag in tags)
    ensures r.Success? && r.value.0.Some? ==> r.value.0.value == babel.displayName(ctag)
  {
    var current: Option<string> := None;
    var others: seq<DisplayTriple> := [];
    var i := 0;
    while i < |tags|
      invariant i <= |tags|
      invariant Collected(babel, tags, ctag, i, current, others)
    {
      var t := tags[i];
      if !babel.parses(t) || (t != ctag && !babel.parses(ctag)) {
        DisplayableStep(babel, tags, i, ctag);
        return Failure(LocaleError);
      }
      if t == ctag {
        CollectCurrent(babel, tags, ctag, i, current, others);
        current := Some(babel.displayName(ctag));
      } else {
        CollectOther(babel, tags, ctag, i, current, others);
        others := others + [Triple(babel, t, ctag)];
      }
      i := i + 1;
    }
    CollectDone(babel, tags, ctag, current, others);
    r := Success((current, others));
  }

  /** What the loop in `Collect` has gathered after the first `i` tags. */
  predicate Collected(babel: Babel, tags: seq<string>, ctag: string, i: nat,
                      current: Option<string>, others: seq<DisplayTriple>)
    requires i <= |tags|
  {
    && Displayable(babel, tags[..i], ctag)
    && others == TriplesFor(babel, Without(tags[..i], ctag), ctag)
    && (current.Some? <==> ctag in tags[..i])
    && (current.Some? ==> current.value == babel.displayName(ctag))
  }

  /** An iteration of the loop in `Collect` on the current tag records its own name. */
  lemma {:induction false} CollectCurrent(babel: Babel, tags: seq<string>, ctag: string, i: nat,
                                          current: Option<string>, others: seq<DisplayTriple>)
    requires i < |tags| && Collected(babel, tags, ctag, i, current, others)
    requires tags[i] == ctag && babel.parses(ctag)
    ensures Collected(babel, tags, ctag, i + 1, Some(babel.displayName(ctag)), others)
  {
    DisplayableStep(babel, tags, i, ctag);
    BuildStep(babel, tags, i, ctag);
  }

  /** An iteration of the loop in `Collect` on another tag that parses appends its triple. */
  lemma {:induction false} CollectOther(babel: Babel, tags: seq<string>, ctag: string, i: nat,
                                        current: Option<string>, others: seq<DisplayTriple>)
    requires i < |tags| && Collected(babel, tags, ctag, i, current, others)
    requires tags[i] != ctag && babel.parses(tags[i]) && babel.parses(ctag)
    ensures Collected(babel, tags, ctag, i + 1, current, others + [Triple(babel, tags[i], ctag)])
  {
    DisplayableStep(babel, tags, i, ctag);
    BuildStep(babel, tags, i, ctag);
  }

  /** After the last tag, `Collected` is what `Collect` promises. */
  lemma {:induction false} CollectDone(babel: Babel, tags: seq<string>, ctag: string,
                                       current: Option<string>, others: seq<DisplayTriple>)
    requires Collected(babel, tags, ctag, |tags|, current, others)
    ensures Displayable(babel, tags, ctag)
    ensures others == TriplesFor(babel, Without(tags, ctag), ctag)
    ensures current.Some? <==> ctag in tags
    ensures current.Some? ==> current.value == babel.displayName(ctag)
  {
    assert tags[..|tags|] == tags;
  }

  lemma {:induction false} WithoutSnoc(tags: seq<string>, x: string, t: string)
    ensures Without(tags + [x], t) == Without(tags, t) + (if x == t then [] else [x])
  {
    if tags == [] {
      assert [x][1..] == [];
    } else {
      assert (tags + [x])[1..] == tags[1..] + [x];
      WithoutSnoc(tags[1..], x, t);
    }
  }

  /** What one more iteration of the loop in `Build` adds. */
  lemma {:induction false} BuildStep(babel: Babel, tags: seq<string>, i: nat, ctag: string)
    requires i < |tags|
    ensures ctag in tags[..i + 1] <==> ctag in tags[..i] || tags[i] == ctag
    ensures TriplesFor(babel, Without(tags[..i + 1], ctag), ctag)
         == TriplesFor(babel, Without(tags[..i], ctag), ctag) + (if tags[i] == ctag then [] else [Triple(babel, tags[i], ctag)])
  {
    assert tags[..i + 1] == tags[..i] + [tags[i]];
    WithoutSnoc(tags[..i], tags[i], ctag);
    var lts := Without(tags[..i], ctag);
    if tags[i] != ctag {
      assert TriplesFor(babel, lts + [tags[i]], ctag) == TriplesFor(babel, lts, ctag) + [Triple(babel, tags[i], ctag)];
    }
  }

  /** One more tag of the loop parses, or else the whole loop raises. */
  lemma {:induction false} DisplayableStep(babel: Babel, tags: seq<string>, i: nat, ctag: string)
    requires i < |tags|
    ensures Displayable(babel, tags[..i + 1], ctag)
      <==> Displayable(babel, tags[..i], ctag) && babel.parses(tags[i]) && (tags[i] != ctag ==> babel.parses(ctag))
    ensures !(babel.parses(tags[i]) && (tags[i] != ctag ==> babel.parses(ctag))) ==> !Displayable(babel, tags, ctag)
  {
    assert tags[..i + 1] == tags[..i] + [tags[i]];
    assert tags[..i + 1][i] == tags[i];
  }

  /** The process-wide cache, keyed by locale tag (memcache, single-threaded). */
  type Cache = map<string, LocaleStrings>

  /** Every table in the cache is stored under its own tag. */
  predicate WellKeyed(cache: Cache) {
    forall k :: k in cache ==> cache[k].tag == k
  }

  /** `memcache.add(key, value)`: stores only when the key is absent. */
  function Add(cache: Cache, key: string, value: LocaleStrings): (r: Cache)
    ensures key in r
    ensures key in cache ==> r == cache
    ensures key !in cache ==> r[key] == value && r - {key} == cache
  {
    if key in cache then cache else cache[key := value]
  }

  /**
   * `memcache.get(ctag)`, and on a miss build the table and `memcache.add` it.
   * A hit returns the stored table and leaves the cache alone; a miss either
   * raises from the constructor, leaving nothing cached, or adds the new
   * table under `ctag` and changes nothing else. Either way a successful
   * call leaves the returned table in the cache, so a second call returns it
   * again without building.
   */
  method GetOrBuild(cache: Cache, ctag: string, tags: seq<string>, babel: Babel)
    returns (r: Result<(LocaleStrings, Cache), Fault>)
    ensures ctag in cache ==> r == Success((cache[ctag], cache))
    ensures ctag !in cache ==> (r.Failure? <==> |tags| > 1 && !Displayable(babel, tags, ctag))
    ensures r.Failure? ==> r.error == LocaleError
    ensures ctag !in cache && r.Success? ==>
      r.value.1 == cache[ctag := r.value.0] && Built(r.value.0, ctag, tags, babel)
    ensures r.Success? ==> ctag in r.value.1 && r.value.1[ctag] == r.value.0
    ensures r.Success? && WellKeyed(cache) ==> WellKeyed(r.value.1) && r.value.0.tag == ctag
  {
    if ctag in cache {
      r := Success((cache[ctag], cache));
    } else {
      var b := Build(ctag, tags, babel);
      if b.Failure? {
        return Failure(b.error);
      }
      r := Success((b.value, Add(cache, ctag, b.value)));
    }
  }

  /** What `getLocaleStrings(handler)` leaves behind: the table, the request, the response and the cache. */
  datatype Page = Page(strings: LocaleStrings, req: Request, resp: Response, cache: Cache)
}
