/**
 * The slice of the Babel locale library the code calls, as plain total
 * functions supplied by the caller. Nothing is assumed about how Babel
 * matches, aliases or case-folds tags.
 */
module LocaleLib {
  import opened Wrappers
  import opened Web

  datatype Babel = Babel(
    /** The tag Babel's negotiation settles on for `Locale.negotiate(preferred, available, sep='_')`, as `str` of the parsed locale, or `None` when nothing matches. */
    negotiate: (seq<string>, seq<string>) -> Option<string>,
    /** Whether `Locale.parse(tag)` accepts the tag; it raises UnknownLocaleError or ValueError otherwise. */
    parses: string -> bool,
    /** `Locale.parse(tag).display_name`: the locale's name in its own language. */
    displayName: string -> string,
    /** `Locale.parse(tag).get_display_name(viewer)`: the locale's name in the language of `viewer`. */
    displayNameIn: (string, string) -> string)

  /**
   * `Locale.negotiate(preferred, available)`: `None` when nothing matches;
   * otherwise Babel parses the matched tag, which raises when Babel has no
   * data for it or the tag is malformed.
   */
  function Negotiate(babel: Babel, preferred: seq<string>, available: seq<string>): (r: Result<Option<string>, Fault>)
    ensures r.Failure? <==>
      babel.negotiate(preferred, available).Some? && !babel.parses(babel.negotiate(preferred, available).value)
    ensures r.Failure? ==> r.error == LocaleError
    ensures r.Success? ==> r.value == babel.negotiate(preferred, available)
    ensures r.Success? && r.value.Some? ==> babel.parses(r.value.value)
  {
    match babel.negotiate(preferred, available)
    case None => Success(None)
    case Some(t) => if babel.parses(t) then Success(Some(t)) else Failure(LocaleError)
  }

  /** Iterating a Python string yields its one-character strings. */
  function Chars(s: string): (r: seq<string>)
    ensures |r| == |s|
    ensures forall i :: 0 <= i < |s| ==> r[i] == [s[i]]
  {
    seq(|s|, i requires 0 <= i < |s| => [s[i]])
  }

  /** `str(x)` for an optional Locale: the literal "None" when absent. */
  function PyStr(o: Option<string>): string {
    match o
    case Some(t) => t
    case None => "None"
  }

  /** Babel hands back only tags from the available list (an assumption some lemmas make explicit). */
  ghost predicate NegotiatesWithin(babel: Babel) {
    forall preferred, available :: babel.negotiate(preferred, available).Some? ==>
      babel.negotiate(preferred, available).value in available
  }
}
