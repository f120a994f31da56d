/** One ARB document (Models/ArbFile.cs): loading sorts the top-level
    properties of the parsed JSON object into the locale, per-key placeholder
    metadata and translations; saving builds the object back in a fixed
    order; the key operations edit the two dictionaries in place.

    Reading and writing the file and the JSON text are outside the model:
    loading starts from the parsed object, saving ends with the object that
    would be written. */
module Models {
  import opened Wrappers
  import opened DotNetText
  import opened Collections
  import opened JsonModel

  /** The reserved property that carries the document's locale. */
  const LocaleName: string := "@@locale"

  /** The document fields that loading fills in and saving writes out. */
  datatype Content = Content(
    languageCode: string,
    translations: map<string, string>,
    placeholders: map<string, seq<Prop>>,
    metadata: Option<seq<Prop>>)

  /** A freshly constructed `ArbFile`. */
  const NewDocument: Content := Content("", map[], map[], None)

  // ---------------------------------------------------------------------
  // Loading

  /** One pass of the loading loop over a property `p`. Each pass changes one
      part of the document, and never the document-level metadata: the third
      test can never succeed, because every name that starts with "@@"
      already started with "@". */
  function ClassifyProperty(c: Content, p: Prop, codec: Codec): (r: Content)
    ensures r.metadata == c.metadata
    ensures "@" <= p.name ==> r.translations == c.translations
    ensures p.name != LocaleName ==> r.languageCode == c.languageCode
    ensures !("@" <= p.name) ==> r.placeholders == c.placeholders && r.translations.Keys == c.translations.Keys + {p.name}
  {
    if p.name == LocaleName then
      c.(languageCode := ValueText(p.value, codec))
    else if "@" <= p.name then
      if p.value.JObject? then c.(placeholders := c.placeholders[p.name[1..] := p.value.props]) else c
    else if "@@" <= p.name then
      assert false;
      c.(metadata := Some(SetProp(c.metadata.GetOr([]), p.name, p.value)))
    else
      c.(translations := c.translations[p.name := ValueText(p.value, codec)])
  }

  /** The loading loop over `props`, starting from `start`: it never touches
      the document-level metadata. */
  function ClassifyFrom(start: Content, props: seq<Prop>, codec: Codec): (r: Content)
    ensures r.metadata == start.metadata
  {
    if props == [] then start
    else ClassifyProperty(ClassifyFrom(start, props[..|props| - 1], codec), props[|props| - 1], codec)
  }

  /** What loading a parsed object yields. The "Other metadata" branch of the
      loader is unreachable, so `Metadata` stays null. */
  function Classify(props: seq<Prop>, codec: Codec): (r: Content)
    ensures r.metadata == None
  {
    ClassifyFrom(NewDocument, props, codec)
  }

  /** The value of the last property called `name`, if any. */
  function LastValue(props: seq<Prop>, name: string): Option<Json> {
    if props == [] then None
    else if props[|props| - 1].name == name then Some(props[|props| - 1].value)
    else LastValue(props[..|props| - 1], name)
  }

  /** The last object value among the properties called `name`, if any. */
  function LastObject(props: seq<Prop>, name: string): Option<seq<Prop>> {
    if props == [] then None
    else
      var p := props[|props| - 1];
      if p.name == name && p.value.JObject? then Some(p.value.props)
      else LastObject(props[..|props| - 1], name)
  }

  /** The locale is the text of the last "@@locale" property, or stays empty. */
  lemma {:induction false} LoadedLocale(props: seq<Prop>, codec: Codec)
    ensures Classify(props, codec).languageCode ==
      match LastValue(props, LocaleName)
      case None => ""
      case Some(v) => ValueText(v, codec)
  {
    if props != [] {
      LoadedLocale(props[..|props| - 1], codec);
    }
  }

  /** A key is a translation exactly when some property of that name does
      not start with "@"; its text is that of the last such property. */
  lemma {:induction false} LoadedTranslations(props: seq<Prop>, codec: Codec, k: string)
    ensures k in Classify(props, codec).translations <==> !("@" <= k) && LastValue(props, k).Some?
    ensures k in Classify(props, codec).translations ==>
      Classify(props, codec).translations[k] == ValueText(LastValue(props, k).value, codec)
  {
    if props != [] {
      LoadedTranslations(props[..|props| - 1], codec, k);
      var p := props[|props| - 1];
      if p.name == k && "@" <= k {
        assert k != LocaleName ==> "@" <= p.name;
      }
    }
  }

  /** A key `k` has placeholder metadata exactly when some property called
      "@" + k holds an object, except for `k` = "@locale", whose property is
      the locale; the metadata is the last such object. Non-object values are
      dropped. */
  lemma {:induction false} LoadedPlaceholders(props: seq<Prop>, codec: Codec, k: string)
    ensures k in Classify(props, codec).placeholders <==> k != "@locale" && LastObject(props, "@" + k).Some?
    ensures k in Classify(props, codec).placeholders ==>
      Classify(props, codec).placeholders[k] == LastObject(props, "@" + k).value
  {
    if props != [] {
      LoadedPlaceholders(props[..|props| - 1], codec, k);
      var p := props[|props| - 1];
      if "@" <= p.name {
        assert p.name == "@" + p.name[1..];
      }
      assert p.name == "@" + k && k == "@locale" ==> p.name == LocaleName;
    }
  }

  /** Loading never yields a translation key that starts with "@". */
  lemma NoLoadedKeyStartsWithAt(props: seq<Prop>, codec: Codec)
    ensures forall k :: k in Classify(props, codec).translations ==> !("@" <= k)
  {
    forall k | k in Classify(props, codec).translations ensures !("@" <= k) {
      LoadedTranslations(props, codec, k);
    }
  }

  /** A document-level property such as "@@context" whose value is an object
      is stored as placeholder metadata for the key "@context". */
  lemma DoubleAtBecomesPlaceholder(props: seq<Prop>, codec: Codec, name: string)
    requires "@@" <= name && name != LocaleName
    requires LastObject(props, name).Some?
    ensures name[1..] in Classify(props, codec).placeholders
    ensures Classify(props, codec).placeholders[name[1..]] == LastObject(props, name).value
    ensures "@" <= name[1..]
  {
    assert "@" + name[1..] == name;
    LoadedPlaceholders(props, codec, name[1..]);
  }

  /** Loading records placeholder metadata for a key without a translation:
      "every placeholder key is a translation key" is not an invariant. */
  lemma PlaceholderWithoutTranslation(codec: Codec)
    ensures "foo" in Classify([Prop("@foo", JObject([]))], codec).placeholders
    ensures "foo" !in Classify([Prop("@foo", JObject([]))], codec).translations
  {
    var props := [Prop("@foo", JObject([]))];
    assert props[..0] == [];
    assert "@" <= "@foo" && "@foo" != LocaleName && "@foo"[1..] == "foo";
    assert ClassifyFrom(NewDocument, props[..0], codec) == NewDocument;
  }

  // ---------------------------------------------------------------------
  // Saving

  /** The locale property, written only for a non-empty language code. */
  function LocaleProps(languageCode: string): (r: seq<Prop>)
    ensures r == [] <==> languageCode == ""
    ensures forall i :: 0 <= i < |r| ==> r[i] == Prop(LocaleName, JString(languageCode))
  {
    if IsNullOrEmpty(languageCode) then [] else [Prop(LocaleName, JString(languageCode))]
  }

  /** One string property per key, in the order of `keys`. */
  function TranslationProps(keys: seq<string>, t: map<string, string>): (r: seq<Prop>)
    requires forall k :: k in keys ==> k in t
    ensures |r| == |keys|
    ensures forall i :: 0 <= i < |keys| ==> r[i] == Prop(keys[i], JString(t[keys[i]]))
  {
    if keys == [] then []
    else
      var n := |keys| - 1;
      TranslationProps(keys[..n], t) + [Prop(keys[n], JString(t[keys[n]]))]
  }

  /** One object property "@key" per key, in the order of `keys`. */
  function PlaceholderProps(keys: seq<string>, p: map<string, seq<Prop>>): (r: seq<Prop>)
    requires forall k :: k in keys ==> k in p
    ensures |r| == |keys|
    ensures forall i :: 0 <= i < |keys| ==> r[i] == Prop("@" + keys[i], JObject(p[keys[i]]))
  {
    if keys == [] then []
    else
      var n := |keys| - 1;
      PlaceholderProps(keys[..n], p) + [Prop("@" + keys[n], JObject(p[keys[n]]))]
  }

  /** The keys in the order saving visits them: each dictionary enumerated
      once, and ascending when keys are sorted. Unsorted, the order is
      whatever the dictionary yields. */
  ghost predicate SaveOrder(c: Content, tk: seq<string>, pk: seq<string>, sortKeys: bool, le: Comparer) {
    && Enumerates(tk, c.translations.Keys)
    && Enumerates(pk, c.placeholders.Keys)
    && (sortKeys ==> StrictlySorted(tk, le) && StrictlySorted(pk, le))
  }

  /** The properties saving assigns, in order: the metadata, the locale,
      the translations, the placeholders. */
  function Layout(c: Content, tk: seq<string>, pk: seq<string>): (r: seq<Prop>)
    requires forall k :: k in tk ==> k in c.translations
    requires forall k :: k in pk ==> k in c.placeholders
    ensures |r| == |c.metadata.GetOr([])| + |LocaleProps(c.languageCode)| + |tk| + |pk|
    ensures c.metadata.GetOr([]) <= r
  {
    c.metadata.GetOr([]) + LocaleProps(c.languageCode)
      + TranslationProps(tk, c.translations) + PlaceholderProps(pk, c.placeholders)
  }

  /** The object saving builds: the layout assigned property by property. */
  function Saved(c: Content, tk: seq<string>, pk: seq<string>): (r: seq<Prop>)
    requires forall k :: k in tk ==> k in c.translations
    requires forall k :: k in pk ==> k in c.placeholders
    ensures |r| <= |Layout(c, tk, pk)|
  {
    SetAll([], Layout(c, tk, pk))
  }

  /** The documents that survive a save and reload: no document-level
      metadata, no translation key starting with "@" and no placeholder
      for "@locale" (whose property would be the locale's). */
  ghost predicate RoundTrips(c: Content) {
    && c.metadata.None?
    && (forall k :: k in c.translations ==> !("@" <= k))
    && "@locale" !in c.placeholders
  }

  lemma {:induction false} ClassifyAppend(start: Content, a: seq<Prop>, b: seq<Prop>, codec: Codec)
    ensures ClassifyFrom(start, a + b, codec) == ClassifyFrom(ClassifyFrom(start, a, codec), b, codec)
  {
    if b == [] {
      assert a + b == a;
    } else {
      var n := |b| - 1;
      assert (a + b)[..|a + b| - 1] == a + b[..n];
      ClassifyAppend(start, a, b[..n], codec);
    }
  }

  /** `m` after assigning `m[k] = src[k]` for each of `keys` in turn. */
  function Assigned<V>(m: map<string, V>, keys: seq<string>, src: map<string, V>): (r: map<string, V>)
    requires forall k :: k in keys ==> k in src
    ensures forall k :: k in r <==> k in m || k in keys
    ensures forall k :: k in r ==> r[k] == if k in keys then src[k] else m[k]
  {
    if keys == [] then m
    else
      var n := |keys| - 1;
      Assigned(m, keys[..n], src)[keys[n] := src[keys[n]]]
  }

  lemma {:induction false} ClassifyTranslationProps(start: Content, tk: seq<string>, t: map<string, string>, codec: Codec)
    requires forall k :: k in tk ==> k in t && !("@" <= k)
    ensures ClassifyFrom(start, TranslationProps(tk, t), codec)
      == start.(translations := Assigned(start.translations, tk, t))
  {
    if tk != [] {
      var n := |tk| - 1;
      var key := tk[n];
      var props := TranslationProps(tk, t);
      assert props == TranslationProps(tk[..n], t) + [Prop(key, JString(t[key]))];
      assert props[..|props| - 1] == TranslationProps(tk[..n], t);
      assert forall k :: k in tk[..n] ==> k in tk;
      ClassifyTranslationProps(start, tk[..n], t, codec);
      var prev := start.(translations := Assigned(start.translations, tk[..n], t));
      assert key in tk && !("@" <= key) && key != LocaleName;
      assert ClassifyProperty(prev, Prop(key, JString(t[key])), codec)
        == prev.(translations := prev.translations[key := t[key]]);
    }
  }

  lemma {:induction false} ClassifyPlaceholderProps(start: Content, pk: seq<string>, p: map<string, seq<Prop>>, codec: Codec)
    requires forall k :: k in pk ==> k in p && k != "@locale"
    ensures ClassifyFrom(start, PlaceholderProps(pk, p), codec)
      == start.(placeholders := Assigned(start.placeholders, pk, p))
  {
    if pk != [] {
      var n := |pk| - 1;
      var props := PlaceholderProps(pk, p);
      assert props[..|props| - 1] == PlaceholderProps(pk[..n], p);
      assert forall k :: k in pk[..n] ==> k in pk;
      ClassifyPlaceholderProps(start, pk[..n], p, codec);
      assert pk[n] in pk;
      var name := "@" + pk[n];
      assert props[|props| - 1] == Prop(name, JObject(p[pk[n]]));
      assert name != LocaleName && "@" <= name && name[1..] == pk[n];
    }
  }

  /** In a `RoundTrips` document no translation property's name starts
      with "@". */
  lemma TranslationNames(c: Content, tk: seq<string>)
    requires RoundTrips(c)
    requires Enumerates(tk, c.translations.Keys)
    ensures forall i :: 0 <= i < |tk| ==> !("@" <= TranslationProps(tk, c.translations)[i].name)
  {
    var tp := TranslationProps(tk, c.translations);
    forall i | 0 <= i < |tk| ensures !("@" <= tp[i].name) {
      assert tp[i].name == tk[i] && tk[i] in tk;
    }
  }

  /** In a `RoundTrips` document every placeholder property's name is "@"
      and its key, and none is the locale's. */
  lemma PlaceholderNames(c: Content, pk: seq<string>)
    requires RoundTrips(c)
    requires Enumerates(pk, c.placeholders.Keys)
    ensures forall i :: 0 <= i < |pk| ==>
      var name := PlaceholderProps(pk, c.placeholders)[i].name;
      "@" <= name && name != LocaleName && name[1..] == pk[i]
  {
    var pp := PlaceholderProps(pk, c.placeholders);
    forall i | 0 <= i < |pk|
      ensures "@" <= pp[i].name && pp[i].name != LocaleName && pp[i].name[1..] == pk[i]
    {
      var name := pp[i].name;
      assert name == "@" + pk[i];
      assert name[1..] == pk[i];
      assert pk[i] in pk;
      assert pk[i] != "@locale";
      assert LocaleName[1..] == "@locale";
    }
  }

  /** Under `RoundTrips`, no two properties of the layout share a name. */
  lemma LayoutDistinct(c: Content, tk: seq<string>, pk: seq<string>)
    requires RoundTrips(c)
    requires Enumerates(tk, c.translations.Keys) && Enumerates(pk, c.placeholders.Keys)
    ensures DistinctNames(Layout(c, tk, pk))
  {
    var loc := LocaleProps(c.languageCode);
    var tp := TranslationProps(tk, c.translations);
    var pp := PlaceholderProps(pk, c.placeholders);
    var all := Layout(c, tk, pk);
    LayoutWithoutMetadata(c, tk, pk);
    TranslationNames(c, tk);
    PlaceholderNames(c, pk);
    var a, b := |loc|, |loc| + |tp|;
    forall i, j | 0 <= i < j < |all| ensures all[i].name != all[j].name {
      if j < a {
      } else if j < b {
        assert all[j] == tp[j - a];
        if i < a {
          assert "@" <= all[i].name;
        } else {
          assert all[i] == tp[i - a];
        }
      } else {
        assert all[j] == pp[j - b];
        if i < a {
          assert all[i].name == LocaleName;
        } else if i < b {
          assert all[i] == tp[i - a];
        } else {
          assert all[i] == pp[i - b];
        }
      }
    }
  }

  /** Assigning every key of `src`, once each, to an empty map copies it. */
  lemma AssignedAll<V>(keys: seq<string>, src: map<string, V>)
    requires Enumerates(keys, src.Keys)
    ensures Assigned(map[], keys, src) == src
  {
    var r := Assigned(map[], keys, src);
    assert r.Keys == src.Keys;
  }

  lemma ClassifyLocaleProps(languageCode: string, codec: Codec)
    ensures ClassifyFrom(NewDocument, LocaleProps(languageCode), codec) == NewDocument.(languageCode := languageCode)
  {
    var loc := LocaleProps(languageCode);
    if loc != [] {
      assert loc[..0] == [];
    }
  }

  /** The saved object built in the four stages of the saving method. */
  lemma SavedInStages(c: Content, tk: seq<string>, pk: seq<string>)
    requires forall k :: k in tk ==> k in c.translations
    requires forall k :: k in pk ==> k in c.placeholders
    ensures Saved(c, tk, pk) == SetAll(SetAll(SetAll(SetAll([], c.metadata.GetOr([])),
      LocaleProps(c.languageCode)), TranslationProps(tk, c.translations)), PlaceholderProps(pk, c.placeholders))
  {
    var meta, loc := c.metadata.GetOr([]), LocaleProps(c.languageCode);
    var tp, pp := TranslationProps(tk, c.translations), PlaceholderProps(pk, c.placeholders);
    SetAllAppend([], meta, loc);
    SetAllAppend([], meta + loc, tp);
    SetAllAppend([], meta + loc + tp, pp);
  }

  /** Under `RoundTrips` the saved object is the layout itself. */
  lemma SavedIsLayout(c: Content, tk: seq<string>, pk: seq<string>)
    requires RoundTrips(c)
    requires Enumerates(tk, c.translations.Keys) && Enumerates(pk, c.placeholders.Keys)
    ensures Saved(c, tk, pk)
      == LocaleProps(c.languageCode) + TranslationProps(tk, c.translations) + PlaceholderProps(pk, c.placeholders)
  {
    LayoutDistinct(c, tk, pk);
    SetAllFromEmpty(Layout(c, tk, pk));
    LayoutWithoutMetadata(c, tk, pk);
  }

  /** Without document-level metadata the layout starts with the locale. */
  lemma LayoutWithoutMetadata(c: Content, tk: seq<string>, pk: seq<string>)
    requires c.metadata.None?
    requires forall k :: k in tk ==> k in c.translations
    requires forall k :: k in pk ==> k in c.placeholders
    ensures Layout(c, tk, pk)
      == LocaleProps(c.languageCode) + TranslationProps(tk, c.translations) + PlaceholderProps(pk, c.placeholders)
  {
    assert c.metadata.GetOr([]) + LocaleProps(c.languageCode) == LocaleProps(c.languageCode);
  }

  /** Loading the locale and translation properties of a `RoundTrips`
      document gives everything but its placeholders. */
  lemma LoadLocaleAndTranslations(c: Content, tk: seq<string>, codec: Codec)
    requires RoundTrips(c)
    requires Enumerates(tk, c.translations.Keys)
    ensures ClassifyFrom(NewDocument, LocaleProps(c.languageCode) + TranslationProps(tk, c.translations), codec)
      == c.(placeholders := map[])
  {
    ClassifyAppend(NewDocument, LocaleProps(c.languageCode), TranslationProps(tk, c.translations), codec);
    ClassifyLocaleProps(c.languageCode, codec);
    var afterLoc := NewDocument.(languageCode := c.languageCode);
    ClassifyTranslationProps(afterLoc, tk, c.translations, codec);
    AssignedAll(tk, c.translations);
  }

  /** Loading the object that saving builds gives back the locale, the
      translations and the placeholders, for either key order. */
  lemma RoundTrip(c: Content, tk: seq<string>, pk: seq<string>, codec: Codec)
    requires RoundTrips(c)
    requires Enumerates(tk, c.translations.Keys) && Enumerates(pk, c.placeholders.Keys)
    ensures Classify(Saved(c, tk, pk), codec) == c
  {
    var head := LocaleProps(c.languageCode) + TranslationProps(tk, c.translations);
    var pp := PlaceholderProps(pk, c.placeholders);
    SavedIsLayout(c, tk, pk);
    LoadLocaleAndTranslations(c, tk, codec);
    ClassifyAppend(NewDocument, head, pp, codec);
    ClassifyPlaceholderProps(c.(placeholders := map[]), pk, c.placeholders, codec);
    AssignedAll(pk, c.placeholders);
  }

  /** With sorted keys the saved object does not depend on the order in
      which the dictionaries were enumerated. */
  lemma SortedSaveDeterministic(c: Content, tk: seq<string>, pk: seq<string>, tk': seq<string>, pk': seq<string>, le: Comparer)
    requires TotalOrder(le)
    requires SaveOrder(c, tk, pk, true, le) && SaveOrder(c, tk', pk', true, le)
    ensures Saved(c, tk, pk) == Saved(c, tk', pk')
  {
    SortedUnique(tk, tk', le);
    SortedUnique(pk, pk', le);
  }

  // ---------------------------------------------------------------------
  // Reading files

  /** The file system as the editor sees it: the text of each file that
      exists and can be read. */
  type Disk = string -> Option<string>

  /** `File.ReadAllText` followed by `JObject.Parse`: the top-level
      properties of the file at `path`, or None where `LoadFromFile` throws. */
  function ReadArbFile(disk: Disk, codec: Codec, path: string): (r: Option<seq<Prop>>)
    ensures disk(path).None? ==> r.None?
    ensures disk(path).Some? ==> r == codec.parseObject(disk(path).value)
  {
    match disk(path)
    case None => None
    case Some(text) => codec.parseObject(text)
  }

  /** The paths among `paths` whose file loads, in their order; a path
      listed twice is kept twice. */
  function Loadable(paths: seq<string>, disk: Disk, codec: Codec): seq<string> {
    if paths == [] then []
    else
      var n := |paths| - 1;
      var init := Loadable(paths[..n], disk, codec);
      if ReadArbFile(disk, codec, paths[n]).Some? then init + [paths[n]] else init
  }

  /** `Loadable` keeps exactly the paths that load, and no more of them
      than were listed. */
  lemma {:induction false} LoadableMembers(paths: seq<string>, disk: Disk, codec: Codec)
    ensures |Loadable(paths, disk, codec)| <= |paths|
    ensures forall p :: p in Loadable(paths, disk, codec) <==> p in paths && ReadArbFile(disk, codec, p).Some?
  {
    if paths != [] {
      var n := |paths| - 1;
      LoadableMembers(paths[..n], disk, codec);
      assert forall p :: p in paths <==> p in paths[..n] || p == paths[n];
    }
  }

  /** How `Loadable` grows by one path. */
  lemma LoadableStep(paths: seq<string>, i: nat, disk: Disk, codec: Codec)
    requires i < |paths|
    ensures Loadable(paths[..i + 1], disk, codec) ==
      Loadable(paths[..i], disk, codec) + if ReadArbFile(disk, codec, paths[i]).Some? then [paths[i]] else []
  {
    assert paths[..i + 1][..i] == paths[..i];
  }

  /** When every listed file loads, nothing is dropped. */
  lemma {:induction false} LoadableAll(paths: seq<string>, disk: Disk, codec: Codec)
    requires forall i :: 0 <= i < |paths| ==> ReadArbFile(disk, codec, paths[i]).Some?
    ensures Loadable(paths, disk, codec) == paths
  {
    if paths != [] {
      var n := |paths| - 1;
      LoadableAll(paths[..n], disk, codec);
      assert paths[..n] + [paths[n]] == paths;
    }
  }

  // ---------------------------------------------------------------------
  // Key operations

  /** The dictionary after `AddTranslationKey(key, d)`: the key is present,
      every existing entry keeps its value and `d` is used only for a key
      that was absent. Applying it again changes nothing. */
  function WithKey(t: map<string, string>, key: string, d: string): (r: map<string, string>)
    ensures r.Keys == t.Keys + {key}
    ensures forall k :: k in t ==> r[k] == t[k]
    ensures key !in t ==> r[key] == d
    ensures key in t ==> r == t
  {
    if key in t then t else t[key := d]
  }

  class ArbFile {
    var filePath: string
    var languageCode: string
    var translations: map<string, string>
    var placeholders: map<string, seq<Prop>>
    var metadata: Option<seq<Prop>>

    /** The fields that loading and saving concern. */
    function Value(): Content
      reads this
    {
      Content(languageCode, translations, placeholders, metadata)
    }

    constructor (path: string)
      ensures filePath == path && Value() == NewDocument
    {
      filePath := path;
      languageCode := "";
      translations := map[];
      placeholders := map[];
      metadata := None;
    }

    /** `LoadFromFile` once the file has been read and parsed into `json`. */
    static method LoadFromFile(path: string, json: seq<Prop>, codec: Codec) returns (doc: ArbFile)
      ensures fresh(doc)
      ensures doc.filePath == path && doc.Value() == Classify(json, codec)
    {
      doc := new ArbFile(path);
      for i := 0 to |json|
        invariant doc.filePath == path
        invariant doc.Value() == Classify(json[..i], codec)
      {
        var property := json[i];
        if property.name == LocaleName {
          doc.languageCode := ValueText(property.value, codec);
        } else if "@" <= property.name {
          var keyName := property.name[1..];
          if property.value.JObject? {
            doc.placeholders := doc.placeholders[keyName := property.value.props];
          }
        } else if "@@" <= property.name {
          // document-level metadata: unreachable, the test above took every "@@" name
          assert false;
        } else {
          doc.translations := doc.translations[property.name := ValueText(property.value, codec)];
        }
        assert json[..i + 1][..i] == json[..i];
      }
      assert json[..|json|] == json;
    }

    /** `SaveToFile(sortKeys)` up to the object it writes. `le` is the
        comparer `OrderBy` uses. */
    method SaveToFile(sortKeys: bool, le: Comparer) returns (json: seq<Prop>)
      requires TotalOrder(le)
      ensures exists tk, pk :: SaveOrder(Value(), tk, pk, sortKeys, le) && json == Saved(Value(), tk, pk)
    {
      var meta := metadata.GetOr([]);
      json := AssignProps([], meta);

      var loc := LocaleProps(languageCode);
      if !IsNullOrEmpty(languageCode) {
        json := SetProp(json, LocaleName, JString(languageCode));
        assert loc[..0] == [];
      }
      assert json == SetAll(SetAll([], meta), loc);

      var tk := EnumerateKeys(translations);
      if sortKeys {
        SortedEnumeration(tk, translations.Keys, le);
        tk := SortedDistinct(tk, le);
      }
      json := AssignTranslations(json, tk);

      var pk := EnumerateKeys(placeholders);
      if sortKeys {
        SortedEnumeration(pk, placeholders.Keys, le);
        pk := SortedDistinct(pk, le);
      }
      json := AssignPlaceholders(json, pk);

      SavedInStages(Value(), tk, pk);
      assert SaveOrder(Value(), tk, pk, sortKeys, le);
    }

    /** The indexer assignment for each of `props` in turn. */
    method AssignProps(obj: seq<Prop>, props: seq<Prop>) returns (json: seq<Prop>)
      ensures json == SetAll(obj, props)
    {
      json := obj;
      for i := 0 to |props|
        invariant json == SetAll(obj, props[..i])
      {
        json := SetProp(json, props[i].name, props[i].value);
        assert props[..i + 1][..i] == props[..i];
      }
      assert props[..|props|] == props;
    }

    /** The saving loop over the translations, visiting `keys` in order. */
    method AssignTranslations(obj: seq<Prop>, keys: seq<string>) returns (json: seq<Prop>)
      requires forall k :: k in keys ==> k in translations
      ensures json == SetAll(obj, TranslationProps(keys, translations))
    {
      json := obj;
      for i := 0 to |keys|
        invariant json == SetAll(obj, TranslationProps(keys[..i], translations))
      {
        json := SetProp(json, keys[i], JString(translations[keys[i]]));
        assert keys[..i + 1][..i] == keys[..i];
        ghost var done := TranslationProps(keys[..i + 1], translations);
        assert done[..|done| - 1] == TranslationProps(keys[..i], translations);
      }
      assert keys[..|keys|] == keys;
    }

    /** The saving loop over the placeholders, visiting `keys` in order. */
    method AssignPlaceholders(obj: seq<Prop>, keys: seq<string>) returns (json: seq<Prop>)
      requires forall k :: k in keys ==> k in placeholders
      ensures json == SetAll(obj, PlaceholderProps(keys, placeholders))
    {
      json := obj;
      for i := 0 to |keys|
        invariant json == SetAll(obj, PlaceholderProps(keys[..i], placeholders))
      {
        json := SetProp(json, "@" + keys[i], JObject(placeholders[keys[i]]));
        assert keys[..i + 1][..i] == keys[..i];
        ghost var done := PlaceholderProps(keys[..i + 1], placeholders);
        assert done[..|done| - 1] == PlaceholderProps(keys[..i], placeholders);
      }
      assert keys[..|keys|] == keys;
    }

    method AddTranslationKey(key: string, defaultValue: string)
      modifies this`translations
      ensures translations == WithKey(old(translations), key, defaultValue)
    {
      if key !in translations {
        translations := translations[key := defaultValue];
      }
    }

    /** Drops the key's translation and its placeholder metadata; an absent
        key is no error. */
    method RemoveTranslationKey(key: string)
      modifies this`translations, this`placeholders
      ensures translations == old(translations) - {key}
      ensures placeholders == old(placeholders) - {key}
      ensures key !in translations && key !in placeholders
    {
      translations := translations - {key};
      placeholders := placeholders - {key};
    }

    function HasTranslationKey(key: string): (r: bool)
      reads this
      ensures r <==> key in translations
    {
      key in translations
    }

    /** Same contract as `AddTranslationKey`; nothing in the program calls it. */
    method EnsureTranslationKey(key: string, defaultValue: string)
      modifies this`translations
      ensures translations == WithKey(old(translations), key, defaultValue)
    {
      AddTranslationKey(key, defaultValue);
    }
  }
}
