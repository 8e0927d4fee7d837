/** `LanguageManager` from js/language.js: the store of translation trees,
    the current language, the saved preference, and the operations that
    change them. */
module Language {
  import opened Wrappers
  import opened KeyPaths
  import opened TranslationTrees

  /** The key under which the chosen language is saved. */
  const PreferenceKey: string := "quala-language"

  /** What fetching and parsing one translation file gave: its tree, or a
      failure (a response that is not ok, or a body that is not JSON). */
  datatype FetchOutcome = Fetched(json: Node) | FetchFailed

  /** The embedded English tree used when loading fails (abridged to the
      page, navigation and hero entries). */
  const DefaultEn: Node := Branch(map[
    "page" := Branch(map[
      "title" := Leaf("Quala - We revolutionize product training"),
      "description" := Leaf("Transform product training with Quala.")]),
    "nav" := Branch(map[
      "userLogin" := Leaf("User Login"),
      "adminLogin" := Leaf("Admin Login")]),
    "hero" := Branch(map[
      "title" := Leaf("We transform product training"),
      "subtitle" := Leaf("With Quala, there is an end to isolated training solutions; suppliers and chains are given a common arena for product training and growth."),
      "cta" := Leaf("Get started today"),
      "admin" := Leaf("Admin Login")])])

  /** The embedded Norwegian tree used when loading fails (abridged like
      `DefaultEn`). */
  const DefaultNo: Node := Branch(map[
    "page" := Branch(map[
      "title" := Leaf("Quala - Vi revolusjonerer produktopplæring"),
      "description" := Leaf("Transformer produktopplæring med Quala.")]),
    "nav" := Branch(map[
      "userLogin" := Leaf("Bruker pålogging"),
      "adminLogin" := Leaf("Admin pålogging")]),
    "hero" := Branch(map[
      "title" := Leaf("Vi transformerer produktopplæring"),
      "subtitle" := Leaf("Med Quala er det slutt på isolerte opplæringsløsninger; leverandører og kjeder får en felles arena for produktopplæring og vekst."),
      "cta" := Leaf("Kom i gang i dag"),
      "admin" := Leaf("Admin pålogging")])])

  /** A language can be switched to when its tree is present and truthy. */
  predicate Available(store: map<string, Node>, lang: string) {
    lang in store && Truthy(store[lang])
  }

  /** The store after `loadTranslations`: both fetched trees when both
      fetches succeed; if either fails, both the English and the Norwegian
      entries are the embedded defaults. Other entries are kept. */
  function AfterLoad(store: map<string, Node>, en: FetchOutcome, no: FetchOutcome): (r: map<string, Node>)
    ensures r.Keys == store.Keys + {"en", "no"}
    ensures forall k :: k in store && k != "en" && k != "no" ==> r[k] == store[k]
    ensures en.Fetched? && no.Fetched? ==> r["en"] == en.json && r["no"] == no.json
    ensures en.FetchFailed? || no.FetchFailed? ==> r["en"] == DefaultEn && r["no"] == DefaultNo
  {
    if en.Fetched? && no.Fetched? then store["en" := en.json]["no" := no.json]
    else store["en" := DefaultEn]["no" := DefaultNo]
  }

  /** After a failed load both languages are available and a known key
      such as `hero.title` resolves to a non-empty string in each. */
  lemma LoadFailureServesDefaults(store: map<string, Node>, en: FetchOutcome, no: FetchOutcome)
    requires en.FetchFailed? || no.FetchFailed?
    ensures var r := AfterLoad(store, en, no);
            && Available(r, "en") && Available(r, "no")
            && Resolve(r, "en", "hero.title") == Some(Leaf("We transform product training"))
            && Resolve(r, "no", "hero.title") == Some(Leaf("Vi transformerer produktopplæring"))
  {
    var r := AfterLoad(store, en, no);
    assert Join(["hero", "title"], '.') == "hero.title";
    SplitJoin(["hero", "title"], '.');
    assert Walk(Some(r["en"]), ["hero", "title"]) == Some(Leaf("We transform product training"));
    assert Walk(Some(r["no"]), ["hero", "title"]) == Some(Leaf("Vi transformerer produktopplæring"));
  }

  /** The language chosen at start-up: the saved preference when it is a
      non-empty string (not checked against the store), otherwise `no` for
      a Norwegian locale and `en` for any other. */
  function InitialLanguage(saved: Option<string>, locale: string): (lang: string)
    ensures saved.Some? && saved.value != "" ==> lang == saved.value
    ensures saved.None? || saved.value == "" ==>
              (lang == "en" || lang == "no") &&
              (lang == "no" <==> locale == "no" || (|locale| > 2 && locale[..3] == "no-"))
  {
    PrimarySubtagIs(locale, "no");
    if saved.Some? && saved.value != "" then saved.value
    else if PrimarySubtag(locale) == "no" then "no"
    else "en"
  }

  /** A saved preference is taken as it is: an unknown code becomes the
      current language, and every lookup in it goes to the fallback tree. */
  lemma UnknownPreferenceKept(store: map<string, Node>, en: FetchOutcome, no: FetchOutcome,
                              locale: string, code: string, key: string)
    requires code != "" && code != "en" && code != "no" && code !in store
    ensures var r := AfterLoad(store, en, no);
            && InitialLanguage(Some(code), locale) == code
            && !Available(r, code)
            && (Truthy(r["en"]) ==> Resolve(r, code, key) == Walk(Some(r["en"]), Split(key, '.')))
  {
    var r := AfterLoad(store, en, no);
    if Truthy(r["en"]) {
      ResolveUnknownLanguage(r, code, key);
    }
  }

  /** Without a saved preference, a failed load still leaves the initial
      language available, so start-up switches to it and saves it. */
  lemma DefaultStartIsAvailable(store: map<string, Node>, en: FetchOutcome, no: FetchOutcome, locale: string)
    requires en.FetchFailed? || no.FetchFailed?
    ensures Available(AfterLoad(store, en, no), InitialLanguage(None, locale))
  {
  }

  /** The current language together with the preference store. */
  datatype Selection = Selection(current: string, prefs: map<string, string>)

  /** `switchLanguage` on values: an available language becomes current
      and is saved; any other code changes nothing. */
  function Switch(store: map<string, Node>, s: Selection, lang: string): (t: Selection)
    ensures Available(store, lang) ==> t.current == lang && t.prefs == s.prefs[PreferenceKey := lang]
    ensures !Available(store, lang) ==> t == s
  {
    if Available(store, lang) then Selection(lang, s.prefs[PreferenceKey := lang]) else s
  }

  /** Switching to a code that has no truthy tree is a no-op. */
  lemma SwitchRefusesMissing(store: map<string, Node>, s: Selection, lang: string)
    requires !Available(store, lang)
    ensures Switch(store, s, lang) == s
  {
  }

  /** Switching to an available language makes it current, saves it, and
      leaves every other saved item alone. */
  lemma SwitchSelects(store: map<string, Node>, s: Selection, lang: string)
    requires Available(store, lang)
    ensures var t := Switch(store, s, lang);
            && t.current == lang
            && Get(t.prefs, PreferenceKey) == Some(lang)
            && forall k :: k != PreferenceKey ==> Get(t.prefs, k) == Get(s.prefs, k)
  {
  }

  /** Switching twice to the same code is switching once. */
  lemma SwitchIdempotent(store: map<string, Node>, s: Selection, lang: string)
    ensures Switch(store, Switch(store, s, lang), lang) == Switch(store, s, lang)
  {
  }

  /** Of two switches, a successful last one decides the state: the last
      call wins. */
  lemma SwitchLastWins(store: map<string, Node>, s: Selection, a: string, b: string)
    requires Available(store, b)
    ensures Switch(store, Switch(store, s, a), b) == Switch(store, s, b)
  {
  }

  /** A language saved by a successful switch is the one chosen at the next
      start-up, whatever the locale. */
  lemma SwitchRemembered(store: map<string, Node>, s: Selection, lang: string, locale: string)
    requires Available(store, lang) && lang != ""
    ensures InitialLanguage(Get(Switch(store, s, lang).prefs, PreferenceKey), locale) == lang
  {
  }

  /** The browser's `localStorage`: string items under string keys. */
  class Storage {
    var items: map<string, string>

    constructor (items: map<string, string>)
      ensures this.items == items
    {
      this.items := items;
    }

    /** `getItem`: the stored string, or `None` for `null`. */
    function GetItem(key: string): Option<string>
      reads this
    {
      Get(items, key)
    }

    /** `setItem`: store `value` under `key`. */
    method SetItem(key: string, value: string)
      modifies this
      ensures items == old(items)[key := value]
    {
      items := items[key := value];
    }
  }

  class LanguageManager {
    var currentLanguage: string
    var translations: map<string, Node>
    const storage: Storage

    /** A new manager starts in English with no translations; `Init` is the
        asynchronous start-up the constructor launches. */
    constructor (storage: Storage)
      ensures currentLanguage == "en" && translations == map[] && this.storage == storage
    {
      currentLanguage := "en";
      translations := map[];
      this.storage := storage;
    }

    /** Start-up: load the translations, pick the initial language from the
        saved preference or the browser locale, and switch to it. */
    method Init(en: FetchOutcome, no: FetchOutcome, locale: string, page: array<Element>)
      modifies this, storage, page
      ensures translations == AfterLoad(old(translations), en, no)
      ensures currentLanguage == InitialLanguage(Get(old(storage.items), PreferenceKey), locale)
      ensures storage.items == if Available(translations, currentLanguage)
                               then old(storage.items)[PreferenceKey := currentLanguage]
                               else old(storage.items)
      ensures forall i :: 0 <= i < page.Length ==>
                page[i] == if Available(translations, currentLanguage)
                           then Rendered(translations, currentLanguage, old(page[i]))
                           else old(page[i])
    {
      LoadTranslations(en, no);
      var savedLang := storage.GetItem(PreferenceKey);
      currentLanguage := InitialLanguage(savedLang, locale);
      SwitchLanguage(currentLanguage, page);
    }

    /** `loadTranslations`: take the English tree, then the Norwegian one;
        the first failure replaces both with the embedded defaults. */
    method LoadTranslations(en: FetchOutcome, no: FetchOutcome)
      modifies this`translations
      ensures translations == AfterLoad(old(translations), en, no)
    {
      var failed := false;
      if en.Fetched? {
        translations := translations["en" := en.json];
        if no.Fetched? {
          translations := translations["no" := no.json];
        } else {
          failed := true;
        }
      } else {
        failed := true;
      }
      if failed {
        translations := translations["en" := DefaultEn];
        translations := translations["no" := DefaultNo];
      }
    }

    /** `switchLanguage`: refuse a code without a truthy tree; otherwise
        make it current, re-render the page and save the preference. */
    method SwitchLanguage(lang: string, page: array<Element>)
      modifies this`currentLanguage, storage, page
      ensures Selection(currentLanguage, storage.items)
              == Switch(translations, Selection(old(currentLanguage), old(storage.items)), lang)
      ensures forall i :: 0 <= i < page.Length ==>
                page[i] == if Available(translations, lang)
                           then Rendered(translations, lang, old(page[i]))
                           else old(page[i])
    {
      if !Available(translations, lang) {
        return;
      }
      currentLanguage := lang;
      UpdateTextElements(page);
      storage.SetItem(PreferenceKey, lang);
    }

    /** `updateTextElements`: look up every element's key in the current
        language and replace its content only when the result is truthy. */
    method UpdateTextElements(page: array<Element>)
      modifies page
      ensures forall i :: 0 <= i < page.Length ==>
                page[i] == Rendered(translations, currentLanguage, old(page[i]))
    {
      for i := 0 to page.Length
        invariant forall j :: 0 <= j < i ==> page[j] == Rendered(translations, currentLanguage, old(page[j]))
        invariant forall j :: i <= j < page.Length ==> page[j] == old(page[j])
      {
        var translation := GetTranslation(page[i].key);
        if translation.Some? && Truthy(translation.value) {
          page[i] := page[i].(content := Text(translation.value));
        }
      }
    }

    /** `getTranslation`: walk the current language's tree along the key's
        segments; on the first missing segment, outside English and with a
        truthy English tree, walk the English tree from its root. Reads the
        manager and changes nothing. */
    method GetTranslation(key: string) returns (r: Option<Node>)
      ensures r == Resolve(translations, currentLanguage, key)
    {
      var keys := Split(key, '.');
      var start := Get(translations, currentLanguage);
      var translation := start;
      for i := 0 to |keys|
        invariant Walk(translation, keys[i..]) == Walk(start, keys)
        invariant i > 0 ==> translation.Some?
      {
        var k := keys[i];
        assert keys[i..][1..] == keys[i + 1..];
        if translation.Some? && translation.value.Branch? && k in translation.value.children {
          translation := Some(translation.value.children[k]);
        } else {
          if currentLanguage != Fallback && Fallback in translations && Truthy(translations[Fallback]) {
            var englishTranslation := Some(translations[Fallback]);
            for j := 0 to |keys|
              invariant Walk(englishTranslation, keys[j..]) == Walk(Some(translations[Fallback]), keys)
            {
              var fallbackKey := keys[j];
              assert keys[j..][1..] == keys[j + 1..];
              if englishTranslation.Some? && englishTranslation.value.Branch?
                 && fallbackKey in englishTranslation.value.children {
                englishTranslation := Some(englishTranslation.value.children[fallbackKey]);
              } else {
                return None;
              }
            }
            return englishTranslation;
          }
          return None;
        }
      }
      return translation;
    }

    /** `getCurrentLanguage`. */
    function GetCurrentLanguage(): string
      reads this
    {
      currentLanguage
    }
  }
}
