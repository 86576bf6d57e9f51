/**
  * The language switcher of the navigation bar
  * (src/components/Navbar/Language.tsx): a Spanish/English toggle that
  * reports each new language, and the list of entries it renders.
  */
module Language {
  import opened Wrappers

  datatype Lang = Lang(name: string, code: string)

  /** `langs`: Spanish first, then English. */
  const Langs: seq<Lang> := [Lang("Spanish", "es"), Lang("English", "en")]

  /** `langName`: the fallback labels. */
  const LangNames: map<string, string> := map["English" := "ENG", "Spanish" := "ESP"]

  /** The two codes the switcher moves between. */
  predicate IsCode(language: string) {
    language == "es" || language == "en"
  }

  /** `useState(defaultLanguage ?? 'es')`. */
  function InitialLanguage(defaultLanguage: Option<string>): (l: string)
    requires defaultLanguage.Some? ==> IsCode(defaultLanguage.value)
    ensures IsCode(l)
    ensures defaultLanguage.Some? ==> l == defaultLanguage.value
    ensures defaultLanguage.None? ==> l == "es"
  {
    defaultLanguage.GetOr("es")
  }

  /** The language `toggleLanguage` moves to: 'es' becomes 'en', anything else 'es'. */
  function Toggled(language: string): (l: string)
    ensures IsCode(l) && l != language
  {
    if language == "es" then "en" else "es"
  }

  /** Toggling twice returns to the start, but only from one of the two codes. */
  lemma ToggleTwiceRestores(language: string)
    ensures Toggled(Toggled(language)) == language <==> IsCode(language)
  {
  }

  /** One rendered entry: its label, whether it is highlighted, whether a '/' follows it. */
  datatype Entry = Entry(caption: string, highlighted: bool, separator: bool)

  /** `getLangName ? getLangName(name) : langName[name]` for an entry of `langs`. */
  function Label(name: string, getLangName: Option<string -> string>): string
    requires name in LangNames
  {
    match getLangName
    case Some(f) => f(name)
    case None => LangNames[name]
  }

  /** The body of the `langs.map` callback for the entry at `index`. */
  function RenderEntry(language: string, getLangName: Option<string -> string>, index: nat): Entry
    requires index < |Langs|
  {
    Entry(Label(Langs[index].name, getLangName), language == Langs[index].code, index != |Langs| - 1)
  }

  /** `langs.map(...)`: one entry per language, in the order of `langs`. */
  function RenderEntries(language: string, getLangName: Option<string -> string>): seq<Entry>
  {
    seq(|Langs|, i requires 0 <= i < |Langs| => RenderEntry(language, getLangName, i))
  }

  function HighlightedIndices(r: seq<Entry>): set<nat> {
    set i: nat | i < |r| && r[i].highlighted
  }

  /** The highlighted entry is the one whose code is the current language, and there is exactly one. */
  lemma ExactlyOneHighlighted(language: string, getLangName: Option<string -> string>)
    requires IsCode(language)
    ensures var r := RenderEntries(language, getLangName);
      && (forall i | 0 <= i < |r| :: r[i].highlighted <==> Langs[i].code == language)
      && HighlightedIndices(r) == {if language == "es" then 0 else 1}
      && |HighlightedIndices(r)| == 1
  {
  }

  /** Spanish then English, labelled ESP and ENG by default, with a '/' after every entry but the last. */
  lemma EntriesLayout(language: string, getLangName: Option<string -> string>)
    ensures var r := RenderEntries(language, getLangName);
      && (getLangName.None? ==> r[0].caption == "ESP" && r[1].caption == "ENG")
      && (getLangName.Some? ==> r[0].caption == getLangName.value("Spanish") && r[1].caption == getLangName.value("English"))
      && r[0].separator && !r[|r| - 1].separator
  {
  }

  /**
    * One mounted switcher. `announced` records the arguments of the
    * `changeLanguage` calls, in order.
    */
  class Switcher {
    var language: string
    const hasChangeLanguage: bool
    var announced: seq<string>

    /** The language is always one of the two, and each announcement named a language. */
    ghost predicate Valid()
      reads this
    {
      && IsCode(language)
      && (forall i | 0 <= i < |announced| :: IsCode(announced[i]))
      && (hasChangeLanguage && announced != [] ==> announced[|announced| - 1] == language)
    }

    constructor (defaultLanguage: Option<string>, hasChangeLanguage: bool)
      requires defaultLanguage.Some? ==> IsCode(defaultLanguage.value)
      ensures Valid()
      ensures language == InitialLanguage(defaultLanguage)
      ensures this.hasChangeLanguage == hasChangeLanguage && announced == []
    {
      language := InitialLanguage(defaultLanguage);
      this.hasChangeLanguage := hasChangeLanguage;
      announced := [];
    }

    /** `toggleLanguage`: announce the new language (not the old one), then switch to it. */
    method Toggle()
      requires Valid()
      modifies this
      ensures Valid()
      ensures language == Toggled(old(language)) && language != old(language)
      ensures announced == old(announced) + (if hasChangeLanguage then [language] else [])
    {
      var lang := if language == "es" then "en" else "es";
      if hasChangeLanguage {
        announced := announced + [lang];
      }
      language := lang;
    }
  }

  /** Two clicks return to the start and announce both languages, new one first. */
  method ClickTwice()
  {
    var switcher := new Switcher(None, true);
    switcher.Toggle();
    assert switcher.language == "en" && switcher.announced == ["en"];
    switcher.Toggle();
    assert switcher.language == "es" && switcher.announced == ["en", "es"];
  }
}
