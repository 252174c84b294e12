/**
 * Language selection: the floating switcher that cycles between the two
 * supported interface languages, and the start-up rule that replaces any
 * unsupported stored language by English.
 */
module Language {
  import opened Wrappers

  /** A switcher entry; `badge` is the short label shown on the button. */
  datatype Lang = Lang(code: string, badge: string, flag: string, name: string)

  /** The switcher's list; English comes first and is the fallback. */
  const Languages: seq<Lang> := [
    Lang("en", "EN", "\U{1F1FA}\U{1F1F8}", "English"),
    Lang("ja", "JA", "\U{1F1EF}\U{1F1F5}", "\U{65E5}\U{672C}\U{8A9E}")
  ]

  /** The codes accepted from storage. */
  const SupportedLanguages: seq<string> := ["en", "ja"]

  /** The fallback code. */
  const DefaultCode: string := "en"

  /** Position of the first language with `code`, or -1 when there is none. */
  function FindIndex(langs: seq<Lang>, code: string): (r: int)
    ensures -1 <= r < |langs|
    ensures r == -1 <==> forall k :: 0 <= k < |langs| ==> langs[k].code != code
    ensures 0 <= r ==> langs[r].code == code && forall k :: 0 <= k < r ==> langs[k].code != code
    decreases |langs|
  {
    if |langs| == 0 then -1
    else if langs[0].code == code then 0
    else
      var i := FindIndex(langs[1..], code);
      assert forall k :: 1 <= k < |langs| ==> langs[k] == langs[1..][k - 1];
      if i == -1 then -1 else i + 1
  }

  /**
   * The code the switcher holds on its first render: the i18n language, or
   * English when that is missing or empty. The effect that later copies
   * `i18n.language` into the switcher does not apply this fallback.
   */
  function InitialCode(i18nLanguage: Option<string>): (r: string)
    ensures r != ""
    ensures i18nLanguage.Some? && i18nLanguage.value != "" ==> r == i18nLanguage.value
    ensures !(i18nLanguage.Some? && i18nLanguage.value != "") ==> r == DefaultCode
  {
    match i18nLanguage
    case Some(code) => if code != "" then code else DefaultCode
    case None => DefaultCode
  }

  /**
   * The language a button press switches to. `currentIndex + 1` is never
   * negative, so the JavaScript remainder and Dafny's agree.
   */
  function ToggleLanguage(current: string): (next: string)
    ensures next in SupportedLanguages
    ensures current == "en" ==> next == "ja"
    ensures current == "ja" ==> next == "en"
    ensures current !in SupportedLanguages ==> next == DefaultCode
  {
    var currentIndex := FindIndex(Languages, current);
    Languages[(currentIndex + 1) % |Languages|].code
  }

  /** The entry the button displays: the matching language, or English. */
  function CurrentLanguage(current: string): (l: Lang)
    ensures l in Languages
    ensures current in SupportedLanguages ==> l.code == current
    ensures current !in SupportedLanguages ==> l == Languages[0]
  {
    var i := FindIndex(Languages, current);
    if i == -1 then Languages[0] else Languages[i]
  }

  /** Two presses from a supported language come back to it. */
  lemma ToggleTwice(current: string)
    requires current in SupportedLanguages
    ensures ToggleLanguage(ToggleLanguage(current)) == current
  {
  }

  /** The stored language after start-up: kept when supported, otherwise English. An absent entry is `None`. */
  function NormaliseStored(stored: Option<string>): (r: string)
    ensures r in SupportedLanguages
    ensures stored.Some? && stored.value in SupportedLanguages ==> r == stored.value
    ensures !(stored.Some? && stored.value in SupportedLanguages) ==> r == DefaultCode
  {
    if stored.Some? && stored.value in SupportedLanguages then stored.value else DefaultCode
  }

  /** Normalising a normalised value changes nothing. */
  lemma NormaliseIdempotent(stored: Option<string>)
    ensures NormaliseStored(Some(NormaliseStored(stored))) == NormaliseStored(stored)
  {
  }

  /** A stored value survives start-up exactly when it is supported. */
  lemma NormaliseKeepsIffSupported(v: string)
    ensures NormaliseStored(Some(v)) == v <==> v in SupportedLanguages
  {
    if v !in SupportedLanguages {
      assert v != DefaultCode;
    }
  }

  /** Region-qualified codes are not supported and fall back to English. */
  lemma RegionCodesFallBack()
    ensures NormaliseStored(Some("en-US")) == "en"
    ensures NormaliseStored(Some("ja-JP")) == "en"
    ensures NormaliseStored(None) == "en"
  {
  }

  /** The switcher's list and the start-up list name the same codes. */
  lemma SwitcherMatchesSupported()
    ensures forall k :: 0 <= k < |Languages| ==> Languages[k].code == SupportedLanguages[k]
    ensures |Languages| == |SupportedLanguages|
  {
  }
}
