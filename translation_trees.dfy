/** Translation trees and the key-path resolver of `LanguageManager`
    (`getTranslation`), stated as functions on values. The class in
    language_manager.dfy runs the same lookup with the source's loops and is
    proved to return what `Resolve` says. */
module TranslationTrees {
  import opened Wrappers
  import opened KeyPaths

  /** A parsed translation file: a string, or an object whose properties
      are further nodes. */
  datatype Node = Leaf(text: string) | Branch(children: map<string, Node>)

  /** JavaScript truthiness of a node: only the empty string is falsy. */
  predicate Truthy(n: Node) {
    n.Branch? || n.text != ""
  }

  /** The language whose tree is consulted when a key is missing. */
  const Fallback: string := "en"

  /** One step of the walk: `cur && cur[k] !== undefined`. A string has no
      children and an absent cursor stays absent. */
  function Child(cur: Option<Node>, k: string): (r: Option<Node>)
    ensures r.Some? <==> cur.Some? && cur.value.Branch? && k in cur.value.children
    ensures r.Some? ==> r.value == cur.value.children[k]
  {
    if cur.Some? && cur.value.Branch? && k in cur.value.children
    then Some(cur.value.children[k])
    else None
  }

  /** The node reached from `cur` by following `path` one segment at a
      time, or `None` as soon as a segment is missing; once the walk has
      failed it stays failed. */
  function Walk(cur: Option<Node>, path: seq<string>): (r: Option<Node>)
    ensures cur.None? ==> r.None?
    ensures r.Some? && path != [] ==> cur.Some? && cur.value.Branch? && path[0] in cur.value.children
    decreases |path|
  {
    if path == [] then cur else Walk(Child(cur, path[0]), path[1..])
  }

  /** Walking a path in two pieces is walking it at once. */
  lemma {:induction false} WalkAppend(cur: Option<Node>, p: seq<string>, q: seq<string>)
    ensures Walk(cur, p + q) == Walk(Walk(cur, p), q)
    decreases |p|
  {
    if p == [] {
      assert p + q == q;
    } else {
      assert (p + q)[0] == p[0];
      assert (p + q)[1..] == p[1..] + q;
      WalkAppend(Child(cur, p[0]), p[1..], q);
    }
  }

  /** A walk that reaches a node passed through every prefix of its path:
      each segment exists along the way. */
  lemma WalkPrefixes(cur: Option<Node>, path: seq<string>, i: nat)
    requires Walk(cur, path).Some?
    requires i <= |path|
    ensures Walk(cur, path[..i]).Some?
  {
    assert path == path[..i] + path[i..];
    WalkAppend(cur, path[..i], path[i..]);
  }

  /** The node for key `key` in the language `lang`, as `getTranslation`
      computes it: walk the language's tree along the dot-separated
      segments; if that fails, the language is not the fallback and the
      fallback tree is truthy, walk the fallback tree from its root along
      the whole path; otherwise nothing. */
  function Resolve(store: map<string, Node>, lang: string, key: string): (r: Option<Node>)
    ensures r.Some? ==> r == Walk(Get(store, lang), Split(key, '.'))
                        || (lang != Fallback && r == Walk(Get(store, Fallback), Split(key, '.')))
    ensures r.None? ==> Walk(Get(store, lang), Split(key, '.')).None?
  {
    var path := Split(key, '.');
    var primary := Walk(Get(store, lang), path);
    if primary.Some? then primary
    else if lang != Fallback && Fallback in store && Truthy(store[Fallback])
    then Walk(Some(store[Fallback]), path)
    else None
  }

  /** A key whose every segment exists in the language's own tree resolves
      to the node at the end of that path, whatever the other languages
      hold: the fallback tree is not consulted. */
  lemma ResolveInLanguage(store: map<string, Node>, other: map<string, Node>,
                          lang: string, key: string, n: Node)
    requires Walk(Get(store, lang), Split(key, '.')) == Some(n)
    requires Get(other, lang) == Get(store, lang)
    ensures Resolve(store, lang, key) == Some(n)
    ensures Resolve(other, lang, key) == Some(n)
  {
  }

  /** A path written segment by segment with dots resolves to the node at
      the end of that path when it exists in the language's tree. */
  lemma ResolvePath(store: map<string, Node>, lang: string, path: seq<string>, n: Node)
    requires |path| >= 1
    requires forall i :: 0 <= i < |path| ==> '.' !in path[i]
    requires Walk(Get(store, lang), path) == Some(n)
    ensures Resolve(store, lang, Join(path, '.')) == Some(n)
  {
    SplitJoin(path, '.');
  }

  /** A failed walk in a language other than the fallback, with a truthy
      fallback tree, gives the fallback's node at the full path. */
  lemma ResolveFallsBack(store: map<string, Node>, lang: string, key: string)
    requires Walk(Get(store, lang), Split(key, '.')) == None
    requires lang != Fallback && Fallback in store && Truthy(store[Fallback])
    ensures Resolve(store, lang, key) == Walk(Some(store[Fallback]), Split(key, '.'))
  {
  }

  /** A key missing from both the language's tree and the fallback tree
      resolves to nothing. */
  lemma ResolveMissingEverywhere(store: map<string, Node>, lang: string, key: string)
    requires Walk(Get(store, lang), Split(key, '.')) == None
    requires Walk(Get(store, Fallback), Split(key, '.')) == None
    ensures Resolve(store, lang, key) == None
  {
  }

  /** In the fallback language itself, or with no truthy fallback tree, a
      failed walk resolves to nothing. */
  lemma ResolveWithoutFallback(store: map<string, Node>, lang: string, key: string)
    requires Walk(Get(store, lang), Split(key, '.')) == None
    requires lang == Fallback || Fallback !in store || !Truthy(store[Fallback])
    ensures Resolve(store, lang, key) == None
  {
  }

  /** A language code with no tree resolves every key in the fallback tree
      (when it is truthy), since its own walk fails at the first segment. */
  lemma ResolveUnknownLanguage(store: map<string, Node>, lang: string, key: string)
    requires lang !in store
    requires lang != Fallback && Fallback in store && Truthy(store[Fallback])
    ensures Resolve(store, lang, key) == Walk(Some(store[Fallback]), Split(key, '.'))
  {
  }

  /** A key `prefix.rest` whose prefix exists in the language's tree
      resolves inside that subtree when `rest` exists there; the result may
      itself be a subtree. */
  lemma ResolveNested(store: map<string, Node>, lang: string, prefix: string, rest: string, sub: Node)
    requires Walk(Get(store, lang), Split(prefix, '.')) == Some(sub)
    requires Walk(Some(sub), Split(rest, '.')).Some?
    ensures Resolve(store, lang, prefix + "." + rest) == Walk(Some(sub), Split(rest, '.'))
  {
    SplitAround(prefix, rest, '.');
    WalkAppend(Get(store, lang), Split(prefix, '.'), Split(rest, '.'));
  }

  /** When the walk in the language gets through `prefix` but not through
      `rest`, the fallback lookup restarts from the root of the fallback
      tree with the whole key, not from the point where the walk stopped. */
  lemma FallbackRestartsFromRoot(store: map<string, Node>, lang: string, prefix: string, rest: string, sub: Node)
    requires Walk(Get(store, lang), Split(prefix, '.')) == Some(sub)
    requires Walk(Some(sub), Split(rest, '.')) == None
    requires lang != Fallback && Fallback in store && Truthy(store[Fallback])
    ensures Resolve(store, lang, prefix + "." + rest)
         == Walk(Walk(Some(store[Fallback]), Split(prefix, '.')), Split(rest, '.'))
  {
    SplitAround(prefix, rest, '.');
    WalkAppend(Get(store, lang), Split(prefix, '.'), Split(rest, '.'));
    WalkAppend(Some(store[Fallback]), Split(prefix, '.'), Split(rest, '.'));
  }

  /** The text a node is displayed as: a string as itself, an object as
      JavaScript converts it to a string. */
  function Text(n: Node): string {
    match n
    case Leaf(s) => s
    case Branch(_) => "[object Object]"
  }

  /** A page element carrying a `data-i18n` key and its displayed content. */
  datatype Element = Element(key: string, content: string)

  /** `updateTextElements` for one element: a truthy lookup result
      replaces the content, anything else leaves the element as it was. */
  function Applied(e: Element, r: Option<Node>): (e': Element)
    ensures e'.key == e.key
    ensures r.None? || !Truthy(r.value) ==> e' == e
    ensures r.Some? && Truthy(r.value) ==> e'.content == Text(r.value) && e'.content != ""
  {
    if r.Some? && Truthy(r.value) then e.(content := Text(r.value)) else e
  }

  /** An element as it is shown in language `lang`. */
  function Rendered(store: map<string, Node>, lang: string, e: Element): (e': Element)
    ensures e'.key == e.key
    ensures var r := Resolve(store, lang, e.key);
            if r.Some? && Truthy(r.value) then e'.content == Text(r.value) else e' == e
  {
    Applied(e, Resolve(store, lang, e.key))
  }

  /** Rendering the same language twice shows the same page as rendering
      it once. */
  lemma RenderedIdempotent(store: map<string, Node>, lang: string, e: Element)
    ensures Rendered(store, lang, Rendered(store, lang, e)) == Rendered(store, lang, e)
  {
  }

  /** A small store: with `{en: {a: {b: "hello"}}, no: {a: {}}}`,
      `a.b` in Norwegian falls back to the English `"hello"`, `a.b` in
      English is `"hello"`, and `a.c` in English is absent. */
  lemma SmallStoreExample()
    ensures var store := map["en" := Branch(map["a" := Branch(map["b" := Leaf("hello")])]),
                             "no" := Branch(map["a" := Branch(map[])])];
            && Resolve(store, "no", "a.b") == Some(Leaf("hello"))
            && Resolve(store, "en", "a.b") == Some(Leaf("hello"))
            && Resolve(store, "en", "a.c") == None
  {
    SplitJoin(["a", "b"], '.');
    SplitJoin(["a", "c"], '.');
    assert Join(["a", "b"], '.') == "a.b";
    assert Join(["a", "c"], '.') == "a.c";
  }
}
