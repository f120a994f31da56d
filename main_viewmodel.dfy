/** The editor's main window state (ViewModels/MainViewModel.cs): the loaded
    documents, the union of their keys, the selected key with one row per
    document, and the commands that add or remove a key everywhere. */
module MainViewModels {
  import opened Wrappers
  import opened DotNetText
  import opened Collections
  import opened JsonModel
  import opened Observable
  import opened Models
  import opened ArbFileViewModels
  import opened TranslationPairViewModels

  /** `TryGetValue` on a dictionary. */
  function TryGetValue<V>(m: map<string, V>, key: string): (r: Option<V>)
    ensures r.Some? <==> key in m
    ensures r.Some? ==> r.value == m[key]
  {
    if key in m then Some(m[key]) else None
  }

  /** The documents behind a list of entries. */
  function DocsOf(files: seq<ArbFileViewModel>): set<ArbFile> {
    set f | f in files :: f.arbFile
  }

  /** The translation tables of a list of entries, in list order. */
  function Tables(files: seq<ArbFileViewModel>): (ts: seq<map<string, string>>)
    reads DocsOf(files)
    ensures |ts| == |files|
    ensures forall i :: 0 <= i < |files| ==> ts[i] == files[i].arbFile.translations
  {
    if files == [] then []
    else
      var n := |files| - 1;
      assert forall i :: 0 <= i < n ==> files[..n][i] == files[i];
      Tables(files[..n]) + [files[n].arbFile.translations]
  }

  /** Every key of every table. */
  function KeyUnion(tables: seq<map<string, string>>): set<string> {
    if tables == [] then {}
    else
      var n := |tables| - 1;
      KeyUnion(tables[..n]) + tables[n].Keys
  }

  /** A key is in the union exactly when some table has it. */
  lemma {:induction false} InKeyUnion(tables: seq<map<string, string>>, k: string)
    ensures k in KeyUnion(tables) <==> exists i :: 0 <= i < |tables| && k in tables[i]
  {
    if tables != [] {
      var n := |tables| - 1;
      InKeyUnion(tables[..n], k);
      assert forall i :: 0 <= i < n ==> tables[..n][i] == tables[i];
    }
  }

  /** `row` is the row that loading `key` builds for `doc`: the stored text
      or "", and the rendered placeholder or "". */
  ghost predicate IsRow(row: TranslationPairViewModel, doc: ArbFile, key: string, codec: Codec)
    reads row, doc
  {
    && row.arbFile == doc
    && row.key == key
    && row.codec == codec
    && row.translation == (if key in doc.translations then doc.translations[key] else "")
    && row.placeholderJson == PlaceholderText(TryGetValue(doc.placeholders, key), codec)
  }

  /** `vm` is the entry appended for the file at `path`: a document loaded
      from that file, with its language code cached. */
  ghost predicate LoadedEntry(vm: ArbFileViewModel, path: string, disk: Disk, codec: Codec)
    reads vm, vm.arbFile
  {
    && ReadArbFile(disk, codec, path).Some?
    && vm.arbFile.filePath == path
    && vm.arbFile.Value() == Classify(ReadArbFile(disk, codec, path).value, codec)
    && vm.languageCode == vm.arbFile.languageCode
  }

  /** `keys` holds exactly the translation keys of the documents of
      `files`; under a total order they are ascending, each listed once. */
  ghost predicate KeyList(keys: seq<string>, files: seq<ArbFileViewModel>, order: Comparer)
    reads DocsOf(files)
  {
    && (TotalOrder(order) ==> StrictlySorted(keys, order))
    && forall k :: k in keys <==> exists i :: 0 <= i < |files| && k in files[i].arbFile.translations
  }

  /** Under a total order the documents fix the key list completely, so
      refreshing or sorting it again yields the same list. */
  lemma KeyListUnique(a: seq<string>, b: seq<string>, files: seq<ArbFileViewModel>, order: Comparer)
    requires TotalOrder(order)
    requires KeyList(a, files, order) && KeyList(b, files, order)
    ensures a == b
  {
    SortedUnique(a, b, order);
  }

  /** `rows` holds the row for `key` of each document of `files`, in order. */
  ghost predicate RowsFor(rows: seq<TranslationPairViewModel>, files: seq<ArbFileViewModel>, key: string, codec: Codec)
    reads rows, DocsOf(files)
  {
    && |rows| == |files|
    && forall i :: 0 <= i < |files| ==> IsRow(rows[i], files[i].arbFile, key, codec)
  }

  class MainViewModel {
    /** The comparer `OrderBy` uses for keys. */
    const order: Comparer
    /** The JSON library documents and rows are read with. */
    const codec: Codec
    var arbFiles: seq<ArbFileViewModel>
    var translationKeys: seq<string>
    var currentTranslations: seq<TranslationPairViewModel>
    var selectedKey: string
    var newKeyName: string

    function Docs(): set<ArbFile>
      reads this`arbFiles
    {
      DocsOf(arbFiles)
    }

    /** The key list holds exactly the documents' translation keys,
        ascending and without repeats under a total order. This holds after
        each command below, not at every moment: other code may append
        documents. */
    ghost predicate KeysRefreshed()
      reads this`arbFiles, this`translationKeys, Docs()
    {
      KeyList(translationKeys, arbFiles, order)
    }

    /** The rows are those for `key`: one per document, in list order. */
    ghost predicate ShowsKey(key: string)
      reads this`arbFiles, this`currentTranslations, Docs(), currentTranslations
    {
      RowsFor(currentTranslations, arbFiles, key, codec)
    }

    /** `AddNewKey` goes ahead with `name`: it is not blank and no document
        has its trimmed form yet. */
    predicate Accepts(name: string)
      reads this`arbFiles, Docs()
    {
      !IsNullOrWhiteSpace(name) && !AnyHasKey(Trim(name))
    }

    /** `ArbFiles.Any(f => f.ArbFile.HasTranslationKey(key))`. */
    predicate AnyHasKey(key: string): (r: bool)
      reads this`arbFiles, Docs()
      ensures r <==> key in KeyUnion(Tables(arbFiles))
    {
      InKeyUnion(Tables(arbFiles), key);
      exists i | 0 <= i < |arbFiles| :: arbFiles[i].arbFile.HasTranslationKey(key)
    }

    constructor (order: Comparer, codec: Codec)
      ensures this.order == order && this.codec == codec
      ensures arbFiles == [] && translationKeys == [] && currentTranslations == []
      ensures selectedKey == "" && newKeyName == ""
    {
      this.order := order;
      this.codec := codec;
      arbFiles := [];
      translationKeys := [];
      currentTranslations := [];
      selectedKey := "";
      newKeyName := "";
    }

    /** The list logic of `AddFiles`: `picked` is what the file dialog
        returned (None when cancelled). Each picked file that loads is
        appended, in order, with no duplicate check; one that does not load
        is skipped. The keys are refreshed only after an accepted dialog. */
    method AddFiles(picked: Option<seq<string>>, disk: Disk)
      modifies this`arbFiles, this`translationKeys
      ensures picked.None? ==> arbFiles == old(arbFiles) && translationKeys == old(translationKeys)
      ensures picked.Some? ==>
        var added := Loadable(picked.value, disk, codec);
        && |arbFiles| == |old(arbFiles)| + |added|
        && arbFiles[..|old(arbFiles)|] == old(arbFiles)
        && (forall j :: 0 <= j < |added| ==>
              var vm := arbFiles[|old(arbFiles)| + j];
              fresh(vm) && fresh(vm.arbFile) && LoadedEntry(vm, added[j], disk, codec))
        && KeysRefreshed()
    {
      if picked.None? {
        return;
      }
      var entries := AppendLoaded(picked.value, disk);
      RefreshTranslationKeys();
      assert forall j :: 0 <= j < |entries| ==> arbFiles[|old(arbFiles)| + j] == entries[j];
    }

    /** `RemoveFile`: no entry, no change; otherwise the entry's first
        occurrence leaves the list and the keys are recomputed from the
        remaining documents. */
    method RemoveFile(fileViewModel: Option<ArbFileViewModel>)
      modifies this`arbFiles, this`translationKeys
      ensures fileViewModel.None? ==> arbFiles == old(arbFiles) && translationKeys == old(translationKeys)
      ensures fileViewModel.Some? ==> arbFiles == RemoveFirst(old(arbFiles), fileViewModel.value) && KeysRefreshed()
    {
      if fileViewModel.Some? {
        arbFiles := RemoveFirst(arbFiles, fileViewModel.value);
        RefreshTranslationKeys();
      }
    }

    /** `RefreshTranslationKeys`: every document's keys, distinct and in
        ascending order. */
    method RefreshTranslationKeys()
      modifies this`translationKeys
      ensures KeysRefreshed()
    {
      ghost var tables := Tables(arbFiles);
      var allKeys: seq<string> := [];
      for i := 0 to |arbFiles|
        invariant forall k :: k in allKeys <==> k in KeyUnion(tables[..i])
      {
        var keys := EnumerateKeys(arbFiles[i].arbFile.translations);
        assert tables[..i + 1][..i] == tables[..i];
        allKeys := allKeys + keys;
      }
      assert tables[..|arbFiles|] == tables;
      forall k {
        InKeyUnion(tables, k);
      }
      translationKeys := SortedDistinct(allKeys, order);
    }

    /** `SortKeys`: rebuilds the key list, which is what puts it in order;
        nothing else changes. */
    method SortKeys()
      modifies this`translationKeys
      ensures KeysRefreshed()
    {
      RefreshTranslationKeys();
    }

    /** `LoadTranslationsForKey`: the rows are rebuilt, one fresh row per
        document in list order. */
    method LoadTranslationsForKey(key: string)
      modifies this`currentTranslations
      ensures ShowsKey(key)
      ensures forall i :: 0 <= i < |currentTranslations| ==> fresh(currentTranslations[i])
    {
      currentTranslations := [];
      for i := 0 to |arbFiles|
        invariant |currentTranslations| == i
        invariant forall j :: 0 <= j < i ==> IsRow(currentTranslations[j], arbFiles[j].arbFile, key, codec)
        invariant forall i :: 0 <= i < |currentTranslations| ==> fresh(currentTranslations[i])
      {
        var doc := arbFiles[i].arbFile;
        var translation := if key in doc.translations then doc.translations[key] else "";
        var placeholder := TryGetValue(doc.placeholders, key);
        var row := new TranslationPairViewModel(doc, key, translation, placeholder, codec);
        currentTranslations := currentTranslations + [row];
      }
    }

    /** The `SelectedKey` setter: the rows are rebuilt only when the key
        actually changes. */
    method SetSelectedKey(value: string) returns (changed: bool)
      modifies this`selectedKey, this`currentTranslations
      ensures changed <==> value != old(selectedKey)
      ensures selectedKey == value
      ensures changed ==> ShowsKey(value)
      ensures !changed ==> currentTranslations == old(currentTranslations)
    {
      var update := SetProperty(selectedKey, value);
      selectedKey, changed := update.0, update.1;
      if changed {
        LoadTranslationsForKey(value);
      }
    }

    /** `CanAddNewKey`: a non-blank name and at least one document; the key
        it would add is then non-empty. */
    function CanAddNewKey(): (r: bool)
      reads this
      ensures r <==> !IsNullOrWhiteSpace(newKeyName) && |arbFiles| > 0
      ensures r ==> Trim(newKeyName) != ""
    {
      !IsNullOrWhiteSpace(newKeyName) && |arbFiles| > 0
    }

    /** `CanRemoveKey`: some key is selected. */
    function CanRemoveKey(): (r: bool)
      reads this
      ensures r <==> selectedKey != ""
    {
      !IsNullOrEmpty(selectedKey)
    }

    /** `AddNewKey`. A blank name, or a trimmed name some document already
        has, changes nothing. Otherwise every document gains the trimmed key
        with the empty text, the keys are refreshed, the key is selected and
        the name box is cleared. */
    method AddNewKey()
      modifies this`translationKeys, this`currentTranslations, this`selectedKey, this`newKeyName
      modifies Docs()`translations
      ensures !old(Accepts(newKeyName)) ==>
        && selectedKey == old(selectedKey) && newKeyName == old(newKeyName)
        && translationKeys == old(translationKeys) && currentTranslations == old(currentTranslations)
        && forall i :: 0 <= i < |arbFiles| ==> arbFiles[i].arbFile.translations == old(arbFiles[i].arbFile.translations)
      ensures old(Accepts(newKeyName)) ==> forall i :: 0 <= i < |arbFiles| ==>
        arbFiles[i].arbFile.translations == old(arbFiles[i].arbFile.translations)[Trim(old(newKeyName)) := ""]
      ensures old(Accepts(newKeyName)) ==> KeysRefreshed() && (|arbFiles| > 0 ==> Trim(old(newKeyName)) in translationKeys)
      ensures old(Accepts(newKeyName)) ==> selectedKey == Trim(old(newKeyName)) && newKeyName == ""
      ensures old(Accepts(newKeyName)) && Trim(old(newKeyName)) != old(selectedKey) ==> ShowsKey(selectedKey)
      ensures old(Accepts(newKeyName)) && Trim(old(newKeyName)) == old(selectedKey) ==>
        currentTranslations == old(currentTranslations)
    {
      if IsNullOrWhiteSpace(newKeyName) {
        return;
      }
      var keyName := Trim(newKeyName);
      if AnyHasKey(keyName) {
        return;
      }
      assert forall i :: 0 <= i < |arbFiles| ==> keyName !in arbFiles[i].arbFile.translations;
      AcceptNewKey(keyName);
    }

    /** What `AddNewKey` does with a key no document has yet. */
    method AcceptNewKey(key: string)
      requires forall i :: 0 <= i < |arbFiles| ==> key !in arbFiles[i].arbFile.translations
      modifies this`translationKeys, this`currentTranslations, this`selectedKey, this`newKeyName
      modifies Docs()`translations
      ensures forall i :: 0 <= i < |arbFiles| ==>
        arbFiles[i].arbFile.translations == old(arbFiles[i].arbFile.translations)[key := ""]
      ensures KeysRefreshed() && (|arbFiles| > 0 ==> key in translationKeys)
      ensures selectedKey == key && newKeyName == ""
      ensures key != old(selectedKey) ==> ShowsKey(key)
      ensures key == old(selectedKey) ==> currentTranslations == old(currentTranslations)
    {
      InsertKey(key);
      SelectNewKey(key);
    }

    /** The end of `AddNewKey`: the new key is selected and the input box
        cleared. */
    method SelectNewKey(key: string)
      modifies this`currentTranslations, this`selectedKey, this`newKeyName
      ensures selectedKey == key && newKeyName == ""
      ensures key != old(selectedKey) ==> ShowsKey(key)
      ensures key == old(selectedKey) ==> currentTranslations == old(currentTranslations)
    {
      var _ := SetSelectedKey(key);
      newKeyName := "";
    }

    /** `RemoveKey`. With no key selected nothing changes. Otherwise no
        document keeps the key's text or placeholder, the key leaves the key
        list, and the selection becomes "", which rebuilds the rows for the
        empty key. */
    method RemoveKey()
      modifies this`translationKeys, this`currentTranslations, this`selectedKey
      modifies Docs()`translations, Docs()`placeholders
      ensures !old(CanRemoveKey()) ==>
        && selectedKey == old(selectedKey)
        && translationKeys == old(translationKeys) && currentTranslations == old(currentTranslations)
        && forall d :: d in Docs() ==> d.translations == old(d.translations) && d.placeholders == old(d.placeholders)
      ensures old(CanRemoveKey()) ==>
        var key := old(selectedKey);
        && (forall d :: d in Docs() ==>
              d.translations == old(d.translations) - {key} && d.placeholders == old(d.placeholders) - {key})
        && KeysRefreshed()
        && key !in translationKeys
        && selectedKey == ""
        && ShowsKey("")
    {
      if IsNullOrEmpty(selectedKey) {
        return;
      }
      var removedKey := selectedKey;
      RemoveKeyFromAll(removedKey);
      RefreshTranslationKeys();
      var _ := SetSelectedKey("");
    }
    /** The loop of `AddFiles` over the picked files. */
    method AppendLoaded(fileNames: seq<string>, disk: Disk) returns (entries: seq<ArbFileViewModel>)
      modifies this`arbFiles
      ensures arbFiles == old(arbFiles) + entries
      ensures |entries| == |Loadable(fileNames, disk, codec)|
      ensures forall j :: 0 <= j < |entries| ==> fresh(entries[j]) && fresh(entries[j].arbFile)
      ensures forall j :: 0 <= j < |entries| ==> LoadedEntry(entries[j], Loadable(fileNames, disk, codec)[j], disk, codec)
    {
      ghost var before := arbFiles;
      ghost var added: seq<string> := [];
      entries := [];
      for i := 0 to |fileNames|
        invariant added == Loadable(fileNames[..i], disk, codec)
        invariant arbFiles == before + entries && |entries| == |added|
        invariant forall j :: 0 <= j < |entries| ==> fresh(entries[j]) && fresh(entries[j].arbFile)
        invariant forall j :: 0 <= j < |entries| ==> LoadedEntry(entries[j], added[j], disk, codec)
      {
        LoadableStep(fileNames, i, disk, codec);
        var fileName := fileNames[i];
        match ReadArbFile(disk, codec, fileName) {
          case None =>
            // the failure is logged and the file skipped
          case Some(json) =>
            var vm := LoadEntry(fileName, json);
            arbFiles := arbFiles + [vm];
            added := added + [fileName];
            entries := entries + [vm];
        }
      }
      assert fileNames[..|fileNames|] == fileNames;
    }

    /** One step of that loop: the entry for a file whose JSON is `json`. */
    method LoadEntry(path: string, json: seq<Prop>) returns (vm: ArbFileViewModel)
      ensures fresh(vm) && fresh(vm.arbFile)
      ensures vm.arbFile.filePath == path && vm.arbFile.Value() == Classify(json, codec)
      ensures vm.languageCode == vm.arbFile.languageCode
    {
      var arbFile := ArbFile.LoadFromFile(path, json, codec);
      vm := new ArbFileViewModel(arbFile);
    }

    /** The body of `AddNewKey` once the name has passed its checks: every
        document gains `key`, then the key list is refreshed and so holds it. */
    method InsertKey(key: string)
      requires forall i :: 0 <= i < |arbFiles| ==> key !in arbFiles[i].arbFile.translations
      modifies this`translationKeys, Docs()`translations
      ensures forall i :: 0 <= i < |arbFiles| ==>
        arbFiles[i].arbFile.translations == old(arbFiles[i].arbFile.translations)[key := ""]
      ensures KeysRefreshed() && (|arbFiles| > 0 ==> key in translationKeys)
    {
      AddKeyToAll(key);
      RefreshTranslationKeys();
      assert |arbFiles| > 0 ==> key in arbFiles[0].arbFile.translations;
    }

    /** The loop of `AddNewKey` over the documents: each gains `key` with
        the empty text. A document listed twice is handled twice, which
        changes nothing the second time. */
    method AddKeyToAll(key: string)
      requires forall i :: 0 <= i < |arbFiles| ==> key !in arbFiles[i].arbFile.translations
      modifies Docs()`translations
      ensures forall i :: 0 <= i < |arbFiles| ==>
        arbFiles[i].arbFile.translations == old(arbFiles[i].arbFile.translations)[key := ""]
    {
      for i := 0 to |arbFiles|
        invariant forall d :: d in Docs() ==>
          d.translations == if d in DocsOf(arbFiles[..i]) then old(d.translations)[key := ""] else old(d.translations)
      {
        arbFiles[i].arbFile.AddTranslationKey(key, "");
        assert DocsOf(arbFiles[..i + 1]) == DocsOf(arbFiles[..i]) + {arbFiles[i].arbFile};
      }
      assert arbFiles[..|arbFiles|] == arbFiles;
    }

    /** The loop of `RemoveKey` over the documents. */
    method RemoveKeyFromAll(key: string)
      modifies Docs()`translations, Docs()`placeholders
      ensures forall d :: d in Docs() ==>
        d.translations == old(d.translations) - {key} && d.placeholders == old(d.placeholders) - {key}
    {
      for i := 0 to |arbFiles|
        invariant forall d :: d in Docs() ==>
          && d.translations == (if d in DocsOf(arbFiles[..i]) then old(d.translations) - {key} else old(d.translations))
          && d.placeholders == (if d in DocsOf(arbFiles[..i]) then old(d.placeholders) - {key} else old(d.placeholders))
      {
        arbFiles[i].arbFile.RemoveTranslationKey(key);
        assert DocsOf(arbFiles[..i + 1]) == DocsOf(arbFiles[..i]) + {arbFiles[i].arbFile};
      }
      assert arbFiles[..|arbFiles|] == arbFiles;
    }
  }
}
