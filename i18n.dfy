/** The internationalisation middleware: choosing the language of a request
    and looking up dotted translation keys in the loaded tables. */
module I18n {
  import opened Common
  import opened Text

  /** A value of a parsed translation file. */
  datatype Json =
    | JObject(members: map<string, Json>)
    | JArray(items: seq<Json>)
    | JString(text: string)
    | JNumber(num: real)
    | JBool(b: bool)
    | JNull

  /** The loaded translation files, by language code. */
  type Translations = map<string, Json>

  const DefaultLang: string := "es"

  /** JavaScript truthiness of an optional value: `undefined`, `null`,
      `false`, `0` and `""` are falsy; objects and arrays, even empty ones,
      are truthy. */
  predicate JsTruthy(v: Option<Json>)
  {
    v.Some? &&
    match v.value
    case JObject(_) => true
    case JArray(_) => true
    case JString(s) => s != ""
    case JNumber(n) => n != 0.0
    case JBool(b) => b
    case JNull => false
  }

  /** A property name that reads as an array index: decimal digits without a
      leading zero. */
  predicate CanonicalIndex(k: string)
  {
    |k| >= 1 && AllDigits(k) && (k[0] != '0' || |k| == 1)
  }

  /** `v[k]` on a JSON value: an object's member, an array's element or
      character at an index, or the `length` of an array or string;
      `undefined` otherwise. */
  function Child(v: Json, k: string): (r: Option<Json>)
    ensures v.JObject? ==> (r.Some? <==> k in v.members)
    ensures v.JNumber? || v.JBool? || v.JNull? ==> r == None
  {
    match v
    case JObject(m) => if k in m then Some(m[k]) else None
    case JArray(a) =>
      if k == "length" then Some(JNumber(|a| as real))
      else if CanonicalIndex(k) && DigitsValue(k) < |a| then Some(a[DigitsValue(k)])
      else None
    case JString(s) =>
      if k == "length" then Some(JNumber(|s| as real))
      else if CanonicalIndex(k) && DigitsValue(k) < |s| then Some(JString([s[DigitsValue(k)]]))
      else None
    case _ => None
  }

  // ---- language selection ----------------------------------------------

  /** The primary tag of an `Accept-Language` header: the part before the
      first `-` of the first comma-separated entry. */
  function FirstTag(h: string): string
  {
    Split(Split(h, ',')[0], '-')[0]
  }

  /** The first tag is the header's text up to its first `,` or `-`. */
  lemma FirstTagPrefix(h: string)
    ensures var f := FirstTag(h);
      && |f| <= |h| && f == h[..|f|]
      && ',' !in f && '-' !in f
      && (|f| < |h| ==> h[|f|] == ',' || h[|f|] == '-')
  {
    var e := Split(h, ',')[0];
    SplitFirst(h, ',');
    SplitFirst(e, '-');
    var f := FirstTag(h);
    assert e == h[..IndexOf(h, ',')];
    assert f == e[..IndexOf(e, '-')];
    if |f| < |h| {
      if |f| < |e| {
        assert h[|f|] == e[|f|];
      } else {
        assert |f| == |e| == IndexOf(h, ',');
      }
    }
  }

  /** The requested language: the `lang` query parameter, then the
      header's first tag, then the default. */
  function Candidate(query: Option<string>, header: Option<string>): string
  {
    if Truthy(query) then query.value
    else if header.Some? && FirstTag(header.value) != "" then FirstTag(header.value)
    else DefaultLang
  }

  /** The loaded table of a language, `undefined` when there is none. */
  function Table(translations: Translations, lang: string): Option<Json>
  {
    if lang in translations then Some(translations[lang]) else None
  }

  predicate Loaded(translations: Translations, lang: string)
  {
    JsTruthy(Table(translations, lang))
  }

  /** `req.language`: the requested language when its table is loaded,
      the default otherwise. */
  function SelectLanguage(translations: Translations, query: Option<string>, header: Option<string>): (lang: string)
    ensures lang == DefaultLang || Loaded(translations, lang)
    ensures lang != DefaultLang ==> lang == Candidate(query, header)
  {
    var c := Candidate(query, header);
    if Loaded(translations, c) then c else DefaultLang
  }

  /** Each source of the language is used exactly when the ones before it
      are absent or empty and its language is loaded. */
  lemma LanguagePriority(translations: Translations, query: Option<string>, header: Option<string>)
    ensures Truthy(query) && Loaded(translations, query.value) ==>
      SelectLanguage(translations, query, header) == query.value
    ensures Truthy(query) && !Loaded(translations, query.value) ==>
      SelectLanguage(translations, query, header) == DefaultLang
    ensures (!Truthy(query) && header.Some? && FirstTag(header.value) != ""
             && Loaded(translations, FirstTag(header.value))) ==>
      SelectLanguage(translations, query, header) == FirstTag(header.value)
    ensures !Truthy(query) && (header.None? || FirstTag(header.value) == "") ==>
      SelectLanguage(translations, query, header) == DefaultLang
  {
  }

  /** A header such as `en-US,en;q=0.9` selects `en` when that table is
      loaded and no query parameter is given. */
  lemma HeaderTagSelected(translations: Translations, tag: string, rest: string)
    requires tag != "" && ',' !in tag && '-' !in tag
    requires Loaded(translations, tag)
    ensures SelectLanguage(translations, None, Some(tag + "-" + rest)) == tag
  {
    var h := tag + "-" + rest;
    FirstTagPrefix(h);
    var f := FirstTag(h);
    assert h[..|tag|] == tag && h[|tag|] == '-';
  }

  // ---- dotted-key lookup -----------------------------------------------

  /** Descends from `v` along `keys`, each step requiring the current value
      and the member reached to be truthy; `None` once a step fails. */
  function Walk(v: Option<Json>, keys: seq<string>): Option<Json>
    decreases |keys|
  {
    if keys == [] then v
    else if JsTruthy(v) && JsTruthy(Child(v.value, keys[0])) then
      Walk(Child(v.value, keys[0]), keys[1..])
    else None
  }

  /** A successful descent over at least one key ends on a truthy value. */
  lemma {:induction false} WalkTruthy(v: Option<Json>, keys: seq<string>)
    requires keys != [] && Walk(v, keys).Some?
    ensures JsTruthy(Walk(v, keys))
    decreases |keys|
  {
    if |keys| > 1 {
      WalkTruthy(Child(v.value, keys[0]), keys[1..]);
    }
  }

  /** A descent continues from where its successful prefix ended. */
  lemma {:induction false} WalkPrefix(v: Option<Json>, keys: seq<string>, i: nat)
    requires i <= |keys| && Walk(v, keys[..i]).Some?
    ensures Walk(v, keys) == Walk(Walk(v, keys[..i]), keys[i..])
    decreases i
  {
    if i > 0 {
      assert keys[..i][1..] == keys[1..][..i - 1];
      WalkPrefix(Child(v.value, keys[0]), keys[1..], i - 1);
      assert keys[1..][i - 1..] == keys[i..];
    }
  }

  /** A descent whose non-empty prefix fails fails as a whole. */
  lemma {:induction false} WalkPrefixFails(v: Option<Json>, keys: seq<string>, i: nat)
    requires 0 < i <= |keys| && Walk(v, keys[..i]).None?
    ensures Walk(v, keys).None?
    decreases i
  {
    if JsTruthy(v) && JsTruthy(Child(v.value, keys[0])) {
      assert keys[..i][1..] == keys[1..][..i - 1];
      if i > 1 {
        WalkPrefixFails(Child(v.value, keys[0]), keys[1..], i - 1);
      }
    }
  }

  /** `req.t(key)`: the value at the key's dot-separated path in the
      language's table, or the key itself when the path breaks off. */
  function Lookup(translations: Translations, lang: string, key: string): (r: Json)
    ensures r == JString(key) || JsTruthy(Some(r))
  {
    var keys := Split(key, '.');
    match Walk(Table(translations, lang), keys)
    case None => JString(key)
    case Some(j) => WalkTruthy(Table(translations, lang), keys); j
  }

  /** The loop of `req.t`, one segment per iteration. */
  method Translate(translations: Translations, lang: string, key: string) returns (r: Json)
    ensures r == Lookup(translations, lang, key)
  {
    var keys := Split(key, '.');
    var value := Table(translations, lang);
    for i := 0 to |keys|
      invariant Walk(value, keys[i..]) == Walk(Table(translations, lang), keys)
      invariant i > 0 ==> value.Some?
    {
      if JsTruthy(value) && JsTruthy(Child(value.value, keys[i])) {
        assert keys[i..][1..] == keys[i + 1..];
        value := Child(value.value, keys[i]);
      } else {
        return JString(key);
      }
    }
    assert keys[|keys|..] == [];
    return value.value;
  }

  /** Without a loaded table for the language every key comes back
      unchanged. */
  lemma NoTableEchoesKey(translations: Translations, lang: string, key: string)
    requires !Loaded(translations, lang)
    ensures Lookup(translations, lang, key) == JString(key)
  {
  }

  /** Once the path reaches a value `w` after `i` segments and segment `i`
      is missing from it or falsy, the key comes back unchanged, whatever
      the remaining segments. */
  lemma MissingSegmentEchoesKey(translations: Translations, lang: string, key: string, i: nat, w: Json)
    requires i < |Split(key, '.')|
    requires Walk(Table(translations, lang), Split(key, '.')[..i]) == Some(w)
    requires !JsTruthy(Child(w, Split(key, '.')[i]))
    ensures Lookup(translations, lang, key) == JString(key)
  {
    var keys := Split(key, '.');
    WalkPrefix(Table(translations, lang), keys, i);
    assert keys[i..][0] == keys[i];
  }

  /** When the whole path is present and truthy, the lookup gives the value
      reached, which may be a nested object. */
  lemma FoundPathGivesValue(translations: Translations, lang: string, key: string, j: Json)
    requires Walk(Table(translations, lang), Split(key, '.')) == Some(j)
    ensures Lookup(translations, lang, key) == j && JsTruthy(Some(j))
  {
    WalkTruthy(Table(translations, lang), Split(key, '.'));
  }

  /** A two-level key `section.name` finds the text stored under it, the
      key `section` alone gives the whole section, and a name the section
      lacks gives the key back. */
  lemma NestedLookup(translations: Translations, lang: string, section: string, name: string, other: string, text: string)
    requires section != "" && name != "" && text != ""
    requires '.' !in section && '.' !in name && '.' !in other && other != name
    requires Table(translations, lang) == Some(JObject(map[section := JObject(map[name := JString(text)])]))
    ensures Lookup(translations, lang, section + "." + name) == JString(text)
    ensures Lookup(translations, lang, section) == JObject(map[name := JString(text)])
    ensures Lookup(translations, lang, section + "." + other) == JString(section + "." + other)
  {
    SplitAfter(section, '.', name);
    SplitNoSep(name, '.');
    SplitNoSep(section, '.');
    SplitAfter(section, '.', other);
    SplitNoSep(other, '.');
    var inner := JObject(map[name := JString(text)]);
    var root := Some(JObject(map[section := inner]));
    assert Child(root.value, section) == Some(inner);
    assert Child(inner, name) == Some(JString(text));
    assert Child(inner, other) == None;
    assert [section] + [name] == [section, name];
    assert [section] + [other] == [section, other];
    assert Walk(root, [section]) == Walk(Some(inner), []);
    assert Walk(root, [section, name]) == Walk(Some(inner), [name]);
    assert Walk(Some(inner), [name]) == Walk(Some(JString(text)), []);
    assert Walk(root, [section, other]) == Walk(Some(inner), [other]);
    assert Walk(Some(inner), [other]) == None;
  }
}
