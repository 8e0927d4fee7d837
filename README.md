# Translation resolver of the Quala website

This project models the language manager of the Quala marketing website
(`LanguageManager` in `js/language.js`). It covers:

- the translation store, which maps a language code to a parsed translation tree;
- the current language;
- the language preference saved in the browser;
- the operations that use them:
  - `getTranslation` resolves a dot-separated key, falling back to English;
  - `switchLanguage` changes the current language;
  - `loadTranslations` applies its policy when a load fails;
  - the start-up code chooses the initial language;
  - `updateTextElements` applies a translation only when the result is truthy.

Files:

- `wrappers.dfy`: `Option`, which stands for JavaScript's `undefined`/`null`, and a map lookup.
- `key_paths.dfy`: `String.prototype.split` on one character. It is used for `key.split('.')` and `navigator.language.split('-')`. It is proved against `Join`, its inverse, in both directions, and gives a characterisation of the first segment.
- `translation_trees.dfy`: the data.
  - A tree is `Node = Leaf(text) | Branch(children)`.
  - `Walk` is the `for` loop of `getTranslation` as a recursive function; `Child` is one step of it.
  - `Resolve` is the whole lookup with its English fallback.
  - The file also holds the rendering rule for one page element, and lemmas for each case of the fallback policy.
- `language_manager.dfy`: the stateful side.
  - `Storage` stands for `localStorage`.
  - The `LanguageManager` class has the fields `currentLanguage`, `translations` and `storage`.
  - Its methods are `Init`, `LoadTranslations`, `SwitchLanguage`, `UpdateTextElements` and `GetTranslation`. Each is proved against the value-level functions `AfterLoad`, `InitialLanguage`, `Switch`, `Rendered` and `Resolve`.
  - `GetTranslation` keeps the source's two `for` loops over a cursor. It is proved to return exactly `Resolve(translations, currentLanguage, key)`.

The model follows the code, including in these points a reader might not
expect:

- `getTranslation` returns whatever node the path ends on. That may be a whole subtree, not only a string. A subtree is truthy, so the page shows it as `"[object Object]"`.
- The saved preference is not checked against the store. The current language can therefore be a code that has no tree. Every lookup in that code then goes to the English tree.
- In `loadTranslations`, one failed fetch replaces both the English and the Norwegian trees with the embedded defaults. This includes an English tree that had already loaded. If the English fetch fails, the Norwegian file is never fetched.
- "Has a tree" means a truthy tree. A translation file whose content is the empty string counts as missing, both for `switchLanguage` and for the English fallback.

## Model

| member | source | states |
|---|---|---|
| KeyPaths.Split | js/language.js:153 | a key splits into at least one segment, and no segment contains a `.` |
| KeyPaths.JoinSplit | js/language.js:153 | joining the segments of a key with `.` gives back the key |
| KeyPaths.SplitJoin | js/language.js:153 | a path of dot-free segments, written with dots, is read back as exactly those segments |
| KeyPaths.SplitAround | js/language.js:153 | the segments of `a.b` are the segments of `a` followed by those of `b` |
| KeyPaths.SplitWithoutSeparator | js/language.js:153 | a key without a dot is a one-segment path |
| KeyPaths.FirstSegment | js/language.js:15 | the text before the first separator is the longest separator-free prefix |
| KeyPaths.PrimarySubtag | js/language.js:15 | the primary subtag is a prefix of the locale and contains no `-` |
| KeyPaths.PrimarySubtagIs | js/language.js:15-17 | the primary subtag is `no` exactly when the locale is `no` or starts with `no-` |
| TranslationTrees.Child | js/language.js:158 | one step of the walk succeeds exactly when the cursor is an object holding the segment, and then gives that property's node |
| TranslationTrees.Walk | js/language.js:154-159 | once a segment is missing the walk stays failed; a successful step means the cursor was an object holding that segment |
| TranslationTrees.WalkAppend | js/language.js:157-159 | walking `p` and then `q` is walking `p + q` |
| TranslationTrees.WalkPrefixes | js/language.js:157-159 | a walk that reaches a node passed through every prefix of the path |
| TranslationTrees.Resolve | js/language.js:152-178 | a result comes from the current language's walk or, outside English, from the English walk of the same full path; no result means the current language's walk failed |
| TranslationTrees.ResolveInLanguage | js/language.js:153-159 | a key whose segments all exist in the current language gives that node, and the answer does not depend on the other languages' trees |
| TranslationTrees.ResolvePath | js/language.js:152-177 | a path of dot-free segments that exists in the current language resolves to the node at its end |
| TranslationTrees.ResolveFallsBack | js/language.js:161-171 | a failed walk outside English, with a truthy English tree, gives the English node at the full path |
| TranslationTrees.ResolveMissingEverywhere | js/language.js:164-168 | a key missing in both the current language and English resolves to null |
| TranslationTrees.ResolveWithoutFallback | js/language.js:162-173 | in English, or with no truthy English tree, a failed walk resolves to null |
| TranslationTrees.ResolveUnknownLanguage | js/language.js:154-171 | a current language with no tree resolves every key in the English tree |
| TranslationTrees.ResolveNested | js/language.js:157-177 | `prefix.rest` resolves inside the subtree at `prefix`; the result may itself be a subtree |
| TranslationTrees.FallbackRestartsFromRoot | js/language.js:161-171 | after a walk that stops partway, the English lookup starts again from the English root with the whole key |
| TranslationTrees.Applied | js/language.js:136-148 | a truthy result replaces the element's content with its non-empty text; null or the empty string leaves the element unchanged; the key is never changed |
| TranslationTrees.Rendered | js/language.js:136-148 | an element keeps its key; its content becomes the text of its key's lookup when that result is truthy, and otherwise the element is unchanged |
| TranslationTrees.RenderedIdempotent | js/language.js:134-150 | rendering a page twice in the same language gives the same page as rendering it once |
| TranslationTrees.SmallStoreExample | js/language.js:152-178 | with `{en: {a: {b: "hello"}}, no: {a: {}}}`: `a.b` in `no` gives `"hello"`, `a.b` in `en` gives `"hello"`, and `a.c` in `en` gives null |
| Language.AfterLoad | js/language.js:26-63 | after loading, `en` and `no` are always present and other entries are kept; both fetched trees are used only when both fetches succeed, and otherwise both are the embedded defaults |
| Language.LoadFailureServesDefaults | js/language.js:39-61 | after a failed load both languages are available, and `hero.title` resolves to a non-empty string in each |
| Language.InitialLanguage | js/language.js:14-17 | the start-up language is a non-empty saved preference, as it is; without one it is `no` exactly for a Norwegian locale, and `en` otherwise |
| Language.UnknownPreferenceKept | js/language.js:14-17 | an unknown saved code becomes the current language unchecked; it is not available, and its lookups go to English |
| Language.DefaultStartIsAvailable | js/language.js:9-24 | after a failed load, the start-up language chosen without a saved preference is available |
| Language.Switch | js/language.js:93-120 | for an available code, the code becomes current and is saved under `quala-language`; for any other code, the state is unchanged |
| Language.SwitchRefusesMissing | js/language.js:94-97 | switching to a code without a truthy tree changes neither the current language nor the saved preference |
| Language.SwitchSelects | js/language.js:103-115 | a successful switch makes the code current and saves it under `quala-language`, and it touches no other saved item |
| Language.SwitchIdempotent | js/language.js:93-120 | switching twice to the same code gives the same state as switching once |
| Language.SwitchLastWins | js/language.js:93-120 | after two switches, a successful last one alone decides the state |
| Language.SwitchRemembered | js/language.js:14-17 | a language saved by a switch is the one chosen at the next start-up, whatever the locale |
| Language.LanguageManager.constructor | js/language.js:3-7 | a new manager starts in `en` with an empty store |
| Language.LanguageManager.Init | js/language.js:9-24 | the store is `AfterLoad` of the old store; the current language is `InitialLanguage` of the saved preference and the locale; the preference and the page change only when that language is available |
| Language.LanguageManager.LoadTranslations | js/language.js:26-63 | the store becomes `AfterLoad` of the old store and the two fetch outcomes; only `translations` changes |
| Language.LanguageManager.SwitchLanguage | js/language.js:93-120 | the current language and the saved items become `Switch` of the old ones; the page is re-rendered only on success; `translations` is outside the method's frame, so it is unchanged |
| Language.LanguageManager.UpdateTextElements | js/language.js:134-150 | every element becomes its rendering in the current language; only the page changes |
| Language.LanguageManager.GetTranslation | js/language.js:152-178 | the two cursor loops return exactly `Resolve`; the method has no modifies clause, so the store and the current language are unchanged |

## Left out

- `fetch` and `response.json()` are network I/O. Each fetch is modelled as an input `FetchOutcome`: a parsed tree, or a failure.
- `localStorage` is stood in for by the `Storage` class, a map of strings. `navigator.language` is a parameter of `Init`.
- Start-up is asynchronous. The constructor launches `init` without awaiting it. The model runs `Init` as a separate call after the constructor, so calls made while the fetches are pending are not modelled.
- `switchLanguage` is modelled as immediate. The 100 ms `setTimeout` is left out as a visual effect. So are the `language-switching` class, `document.documentElement.lang` and `updateLanguageButtons`.
- `setupEventListeners` (js/language.js:83-91) is left out. It is DOM wiring that calls `switchLanguage` with a button's `data-lang`.
- `updateTextElements` sets one of three things depending on the tag: an attribute, `textContent` or `innerHTML`. These are DOM details, so each element is modelled with a single `content`.
- `getDefaultTranslations` (js/language.js:65-80) is never called.
- `DefaultEn` and `DefaultNo` hold only the `page`, `nav` and `hero` entries of the embedded literals (js/language.js:43-45 and 53-55), all of them including `hero.subtitle`. The `learning`, `partnership`, `rewards`, `testimonials` and `footer` entries are left out, so after a failed load their keys resolve to nothing in the model.
- Translation files are modelled as strings and objects only. JSON numbers, booleans, `null` and arrays are not modelled.
- A string leaf is treated as having no children. JavaScript would index into it, for example with `0` or `length`.
- Property names inherited from `Object.prototype`, such as `constructor`, are not modelled as present keys.
- Console logging is left out.
- `getCurrentLanguage` is modelled as `Language.LanguageManager.GetCurrentLanguage`. It has no row because it only returns the field.
- js/main.js is not part of this model. It is page wiring: animations, scrolling, the form, lazy images and analytics.
