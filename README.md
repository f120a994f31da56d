# Flutter ARB editor — a verified model of its core

The Flutter ARB editor is a WPF desktop tool for editing the `.arb`
localisation files of a Flutter project side by side. Each ARB file is a JSON
object. `@@locale` names the language. A plain property `key` holds the
translation of `key`, and a property `@key` holds that key's placeholder
metadata. This project models the editor's core in Dafny:

- **Documents** (`Models`, `arb_file.dfy`). The `ArbFile` class covers
  loading a parsed JSON object into the locale, the translation dictionary
  and the placeholder dictionary, and saving it back. Saving writes
  metadata, then the locale, then the translations, then the placeholders,
  with keys sorted or in dictionary order. The class also adds, removes and
  tests keys in place.
- **Main window** (`MainViewModels`, `main_viewmodel.dfy`). The list of
  open documents and the union of their keys, in order. The selected key,
  with one editable row per document. The commands that add a key to every
  document or remove it from every document.
- **Rows and list entries** (`TranslationPairViewModels`,
  `ArbFileViewModels`). Their setters write edits straight into the
  document.
- **"Add files" dialog** (`AddFilesDialogViewModels`). A list of file
  previews. It starts with the open files and grows by browsing, with a
  case-insensitive duplicate check, or by loading a project file. It shrinks
  by removal, and it can be saved as a project.

The JSON text layer is a parameter, a `Codec` with a renderer and an object
parser. So is the file system, a `Disk` mapping a path to its text. A dialog
becomes a parameter holding the user's choice, `None` when they cancelled.
Dictionary enumeration order is left open: a method enumerates every key
once, in an order the model does not fix. The culture-sensitive `OrderBy`
comparer is an abstract `Comparer`. Every ordering claim holds for any total
order.

Places where the code departs from its documentation are modelled as the
code behaves:

- The "document-level metadata" branch of the loader can never run. Every
  name starting with `@@` already starts with `@`, and the `@` test comes
  first. So `Metadata` is never filled, and `@@context` with an object value
  becomes placeholder metadata for the key `@context`.
- Placeholder metadata may exist for a key without a translation.
- `AddFiles` in the main window does no duplicate check.
- Adding a key touches only the translation dictionaries.

## Model

| member | source | states |
|---|---|---|
| Models.LoadedLocale | flutterArbEditor/Models/ArbFile.cs:26-31 | the loaded language code is the text of the last `@@locale` property, or "" when there is none |
| Models.LoadedTranslations | flutterArbEditor/Models/ArbFile.cs:26-53 | a key is loaded as a translation iff some property of that name does not start with "@"; its text is that of the last one |
| Models.LoadedPlaceholders | flutterArbEditor/Models/ArbFile.cs:32-40 | a key gets placeholder metadata iff a property "@key" holds an object and the key is not "@locale"; the last such object wins, non-object values are dropped |
| Models.ClassifyProperty | flutterArbEditor/Models/ArbFile.cs:28-52 | one pass of the loop never touches Metadata; a "@" name (the locale included) leaves the translations alone, any other name the locale; a plain name leaves the placeholders alone and becomes a translation key |
| Models.ClassifyFrom | flutterArbEditor/Models/ArbFile.cs:26-53 | the loop over any list of properties leaves Metadata as it found it |
| Models.Classify | flutterArbEditor/Models/ArbFile.cs:41-47 | the document-level metadata branch is unreachable: loading never sets Metadata |
| Models.NoLoadedKeyStartsWithAt | flutterArbEditor/Models/ArbFile.cs:48-52 | no loaded translation key starts with "@" |
| Models.DoubleAtBecomesPlaceholder | flutterArbEditor/Models/ArbFile.cs:32-40 | an "@@name" property (other than the locale) with an object value is stored as placeholder metadata of the key "@name" |
| Models.PlaceholderWithoutTranslation | flutterArbEditor/Models/ArbFile.cs:32-40 | loading `{"@foo": {}}` gives "foo" placeholder metadata but no translation, so placeholders ⊆ translations is not an invariant |
| Models.LocaleProps | flutterArbEditor/Models/ArbFile.cs:71-74 | no locale property for an empty code; otherwise only "@@locale" with the code as its text |
| Models.Layout | flutterArbEditor/Models/ArbFile.cs:58-94 | the assigned properties, metadata first: as many as the metadata, the locale property and the two key lists together |
| Models.LayoutWithoutMetadata | flutterArbEditor/Models/ArbFile.cs:60-94 | without document-level metadata the assigned properties start with the locale, then the translations, then the placeholders |
| Models.Saved | flutterArbEditor/Models/ArbFile.cs:58-94 | assigning the layout never yields more properties than it lists (names that repeat are overwritten in place) |
| Models.TranslationProps | flutterArbEditor/Models/ArbFile.cs:81-84 | one string property per key, same length and order as the keys |
| Models.PlaceholderProps | flutterArbEditor/Models/ArbFile.cs:91-94 | one object property "@key" per key, same length and order as the keys |
| Models.Assigned | flutterArbEditor/Models/ArbFile.cs:38-51 | assigning `m[k] = src[k]` for each listed key gives exactly the old keys plus the listed ones, listed keys taking src's value |
| Models.ClassifyAppend | flutterArbEditor/Models/ArbFile.cs:26-53 | loading a concatenation is loading the second part after the first |
| Models.ClassifyTranslationProps | flutterArbEditor/Models/ArbFile.cs:48-52 | loading the saved translation properties assigns exactly those translations |
| Models.ClassifyPlaceholderProps | flutterArbEditor/Models/ArbFile.cs:32-40 | loading the saved "@key" properties assigns exactly those placeholders |
| Models.ClassifyLocaleProps | flutterArbEditor/Models/ArbFile.cs:71-74 | loading the saved locale property restores the language code; an empty code writes nothing and loads as "" |
| Models.TranslationNames | flutterArbEditor/Models/ArbFile.cs:81-84 | in a document that survives a round trip, no saved translation name starts with "@" |
| Models.PlaceholderNames | flutterArbEditor/Models/ArbFile.cs:91-94 | every saved placeholder name is "@" + its key and is never "@@locale" |
| Models.LayoutDistinct | flutterArbEditor/Models/ArbFile.cs:60-94 | in a document that survives a round trip, no two saved properties share a name |
| Models.AssignedAll | flutterArbEditor/Models/ArbFile.cs:81-94 | assigning every key of a dictionary once into an empty one copies it |
| Models.SavedInStages | flutterArbEditor/Models/ArbFile.cs:58-94 | the saved object is built by four stages of indexer assignments: metadata, locale, translations, placeholders |
| Models.SavedIsLayout | flutterArbEditor/Models/ArbFile.cs:58-94 | with distinct names the saved object is exactly locale + translations + placeholders, in visiting order |
| Models.LoadLocaleAndTranslations | flutterArbEditor/Models/ArbFile.cs:26-53 | loading the locale and translation part of a saved object restores all but the placeholders |
| Models.RoundTrip | flutterArbEditor/Models/ArbFile.cs:20-94 | loading what saving builds gives back the same language code, translations and placeholders, for sorted or unsorted keys |
| Models.SortedSaveDeterministic | flutterArbEditor/Models/ArbFile.cs:77-94 | with sortKeys the saved object does not depend on dictionary enumeration order |
| Models.ReadArbFile | flutterArbEditor/Models/ArbFile.cs:22-23 | a missing file gives no document; an existing one gives whatever parsing its text gives |
| Models.Loadable | flutterArbEditor/ViewModels/MainViewModel.cs:92-104 | the paths the load loop keeps, in order; its properties are stated by `LoadableMembers`, `LoadableStep` and `LoadableAll` |
| Models.LoadableMembers | flutterArbEditor/ViewModels/MainViewModel.cs:92-104 | the files kept by a load loop are exactly the picked ones that read and parse, no more of them than were picked |
| Models.LoadableStep | flutterArbEditor/ViewModels/MainViewModel.cs:92-104 | each loop step keeps the path iff its file loads |
| Models.LoadableAll | flutterArbEditor/ViewModels/AddFilesDialogViewModel.cs:242-264 | when every listed file loads, the load loop keeps every path, in order |
| Models.WithKey | flutterArbEditor/Models/ArbFile.cs:99-105 | adding a key: the key is present, existing entries keep their value, the default is used only for a new key, and adding twice changes nothing |
| Models.ArbFile.constructor | flutterArbEditor/Models/ArbFile.cs:14-18 | a new document has the path, an empty code and empty dictionaries |
| Models.ArbFile.LoadFromFile | flutterArbEditor/Models/ArbFile.cs:20-56 | the loop leaves the document equal to the pure loading function of the parsed properties |
| Models.ArbFile.SaveToFile | flutterArbEditor/Models/ArbFile.cs:58-97 | the written object is the saved layout for some enumeration of each dictionary, ascending when sortKeys is set |
| Models.ArbFile.AssignProps | flutterArbEditor/Models/ArbFile.cs:63-69 | the metadata copy loop is indexer assignment of each property in turn |
| Models.ArbFile.AssignTranslations | flutterArbEditor/Models/ArbFile.cs:81-84 | the translation loop assigns one string property per key in visiting order |
| Models.ArbFile.AssignPlaceholders | flutterArbEditor/Models/ArbFile.cs:91-94 | the placeholder loop assigns one "@key" object per key in visiting order |
| Models.ArbFile.AddTranslationKey | flutterArbEditor/Models/ArbFile.cs:99-105 | the translations become WithKey of the old ones; nothing else changes |
| Models.ArbFile.RemoveTranslationKey | flutterArbEditor/Models/ArbFile.cs:107-111 | the key leaves both dictionaries; every other entry stays; an absent key is no error |
| Models.ArbFile.HasTranslationKey | flutterArbEditor/Models/ArbFile.cs:113-116 | true iff the key has a translation |
| Models.ArbFile.EnsureTranslationKey | flutterArbEditor/Models/ArbFile.cs:118-124 | same effect as AddTranslationKey |
| JsonModel.ValueText | flutterArbEditor/Models/ArbFile.cs:30 | a string value yields itself and null yields "" |
| JsonModel.IndexOfName | flutterArbEditor/Models/ArbFile.cs:67 | the position of the first property with the name, or -1 exactly when there is none |
| JsonModel.SetProp | flutterArbEditor/Models/ArbFile.cs:67 | indexer assignment replaces the named property in place, or appends it; other properties stay |
| JsonModel.SetAllAppend | flutterArbEditor/Models/ArbFile.cs:60-94 | assigning a concatenation is assigning the second part after the first |
| JsonModel.DistinctInit | flutterArbEditor/Models/ArbFile.cs:60-94 | dropping the last of a list of distinct names keeps them distinct, and the last name is new |
| JsonModel.SetAll | flutterArbEditor/Models/ArbFile.cs:63-94 | assigning properties one by one keeps every existing property where it stands and adds at most one per assignment |
| JsonModel.SetAllFromEmpty | flutterArbEditor/Models/ArbFile.cs:60-94 | onto a new empty object, properties with distinct names are saved exactly as listed |
| JsonModel.SetAllDistinct | flutterArbEditor/Models/ArbFile.cs:60-94 | assigning properties with distinct names one by one builds exactly their list |
| Collections.Insert | flutterArbEditor/ViewModels/MainViewModel.cs:257 | inserting into an ascending distinct list keeps it ascending and distinct, with the new element added |
| Collections.SortedDistinct | flutterArbEditor/ViewModels/MainViewModel.cs:257 | `Distinct().OrderBy()` has exactly the input's elements, ascending and each once under a total order |
| Collections.SortedUnique | flutterArbEditor/Models/ArbFile.cs:77-79 | under a total order only one ascending duplicate-free list has a given set of elements |
| Collections.SortedEnumeration | flutterArbEditor/Models/ArbFile.cs:77-79 | sorting an enumeration of a dictionary's keys gives an ascending enumeration of them |
| Collections.SortedDistinctDeterministic | flutterArbEditor/ViewModels/MainViewModel.cs:257 | the sorted distinct keys depend only on which keys there are, not on their order |
| Collections.EnumerateKeys | flutterArbEditor/Models/ArbFile.cs:79 | enumerating a dictionary yields every key exactly once |
| Collections.RemoveFirst | flutterArbEditor/ViewModels/MainViewModel.cs:113 | `Collection.Remove`: an absent element changes nothing; a present one leaves the list one shorter, every other element stays, and a list without repeats loses that element |
| Collections.FirstIndex | flutterArbEditor/ViewModels/AddFilesDialogViewModel.cs:170 | the position of the first occurrence: it holds the element and nothing before it does |
| Collections.RemoveFirstAt | flutterArbEditor/ViewModels/AddFilesDialogViewModel.cs:170 | `Remove` drops exactly the first occurrence and keeps the other elements in their order |
| DotNetText.Trim | flutterArbEditor/ViewModels/MainViewModel.cs:200 | the trimmed name is the infix without white space at either end, empty exactly for a blank name |
| DotNetText.TrimStart | flutterArbEditor/ViewModels/MainViewModel.cs:200 | only leading white space is dropped, and the rest starts with a non-space |
| DotNetText.TrimEnd | flutterArbEditor/ViewModels/MainViewModel.cs:200 | only trailing white space is dropped, and the rest ends with a non-space |
| DotNetText.Join | flutterArbEditor/ViewModels/AddFilesDialogViewModel.cs:67 | joining no parts gives "", one part gives that part, and the result starts with the first part |
| DotNetText.JoinAppend | flutterArbEditor/ViewModels/AddFilesDialogViewModel.cs:67 | the separator goes between consecutive parts: one more part appends the separator and that part |
| DotNetText.IsWhiteSpace | flutterArbEditor/ViewModels/MainViewModel.cs:197 | `char.IsWhiteSpace`: space, tab, line feed and carriage return are white space; ASCII letters and digits are not |
| DotNetText.IsNullOrWhiteSpace | flutterArbEditor/ViewModels/MainViewModel.cs:197 | `string.IsNullOrWhiteSpace`: true exactly when every character is white space, so in particular for "" |
| DotNetText.IsNullOrEmpty | flutterArbEditor/ViewModels/MainViewModel.cs:228 | `string.IsNullOrEmpty`: true exactly for "" |
| DotNetText.EqualsIgnoreCase | flutterArbEditor/ViewModels/AddFilesDialogViewModel.cs:137 | `Equals(…, OrdinalIgnoreCase)`: equal strings match, matching strings have the same length, and two different matching strings differ at a lower-case letter |
| DotNetText.EqualsIgnoreCaseIff | flutterArbEditor/ViewModels/AddFilesDialogViewModel.cs:137 | two strings match ignoring case exactly when, position by position, the characters are equal or are the lower- and upper-case forms of one ASCII letter |
| DotNetText.EqualsIgnoreCaseSymmetric | flutterArbEditor/ViewModels/AddFilesDialogViewModel.cs:137 | matching ignoring case is symmetric |
| DotNetText.EqualsIgnoreCaseTransitive | flutterArbEditor/ViewModels/AddFilesDialogViewModel.cs:137 | matching ignoring case is transitive |
| DotNetText.EqualsIgnoreCaseExamples | flutterArbEditor/ViewModels/AddFilesDialogViewModel.cs:137 | "App_EN.arb" matches "app_en.ARB"; "app_en.arb" does not match "app_de.arb" |
| Observable.SetProperty | flutterArbEditor/ViewModels/MainViewModel.cs:277-285 | the store takes the value, and the result says whether it differed |
| TranslationPairViewModels.PlaceholderText | flutterArbEditor/ViewModels/TranslationPairViewModel.cs:65 | a row shows the rendered placeholder object, or "" when there is none |
| TranslationPairViewModels.TranslationPairViewModel.constructor | flutterArbEditor/ViewModels/TranslationPairViewModel.cs:60-66 | a row holds its document, key, text and rendered placeholder |
| TranslationPairViewModels.TranslationPairViewModel.SetTranslation | flutterArbEditor/ViewModels/TranslationPairViewModel.cs:21-31 | a changed text is cached and written under the row's key; an unchanged one writes nothing |
| TranslationPairViewModels.TranslationPairViewModel.SetPlaceholderJson | flutterArbEditor/ViewModels/TranslationPairViewModel.cs:33-58 | a changed text is cached; blank text removes the placeholder, an object replaces it, unparsable text leaves the document alone |
| ArbFileViewModels.ArbFileViewModel.constructor | flutterArbEditor/ViewModels/ArbFileViewModel.cs:28-32 | an entry caches its document's language code |
| ArbFileViewModels.ArbFileViewModel.SetLanguageCode | flutterArbEditor/ViewModels/ArbFileViewModel.cs:16-26 | a changed code is cached and copied into the document; an unchanged one touches nothing |
| MainViewModels.TryGetValue | flutterArbEditor/ViewModels/MainViewModel.cs:270-271 | a value exactly when the key is present, and then the stored one |
| MainViewModels.Tables | flutterArbEditor/ViewModels/MainViewModel.cs:257 | the translation dictionaries of the entries, one per entry in list order |
| MainViewModels.InKeyUnion | flutterArbEditor/ViewModels/MainViewModel.cs:257 | a key is in the union of the dictionaries' keys iff some document has it |
| MainViewModels.KeyListUnique | flutterArbEditor/ViewModels/MainViewModel.cs:248-262 | under a total order the documents determine the key list, so refreshing or sorting again yields the same list |
| MainViewModels.MainViewModel.constructor | flutterArbEditor/ViewModels/MainViewModel.cs:14-22 | the window starts with no documents, keys or rows and empty selection and name |
| MainViewModels.MainViewModel.AddFiles | flutterArbEditor/ViewModels/MainViewModel.cs:82-107 | a cancelled dialog changes nothing; otherwise each picked file that loads is appended in order as a fresh entry, failures are skipped, no duplicate check, and the keys are refreshed |
| MainViewModels.MainViewModel.AppendLoaded | flutterArbEditor/ViewModels/MainViewModel.cs:92-104 | the loop appends exactly the loadable picked files, each a fresh entry holding its loaded document |
| MainViewModels.MainViewModel.LoadEntry | flutterArbEditor/ViewModels/MainViewModel.cs:96-97 | a fresh entry over a fresh document loaded from the file, caching its code |
| MainViewModels.MainViewModel.RemoveFile | flutterArbEditor/ViewModels/MainViewModel.cs:109-116 | no entry, no change; otherwise the entry leaves the list and the keys are recomputed |
| MainViewModels.MainViewModel.RefreshTranslationKeys | flutterArbEditor/ViewModels/MainViewModel.cs:254-262 | the key list holds exactly the keys of all documents, ascending and each once under a total order |
| MainViewModels.MainViewModel.SortKeys | flutterArbEditor/ViewModels/MainViewModel.cs:248-252 | sorting is a refresh: afterwards the key list is the ascending distinct union |
| MainViewModels.MainViewModel.LoadTranslationsForKey | flutterArbEditor/ViewModels/MainViewModel.cs:264-273 | one fresh row per document, in list order, showing the key's text or "" and its placeholder or "" |
| MainViewModels.MainViewModel.SetSelectedKey | flutterArbEditor/ViewModels/MainViewModel.cs:33-43 | the rows are rebuilt for the new key exactly when the selection changes; otherwise they stay |
| MainViewModels.MainViewModel.CanAddNewKey | flutterArbEditor/ViewModels/MainViewModel.cs:221-224 | enabled iff the name is not blank and a document is open; the key it adds is then non-empty |
| MainViewModels.MainViewModel.AnyHasKey | flutterArbEditor/ViewModels/MainViewModel.cs:203 | some open document has the key exactly when it is in the union of their keys |
| MainViewModels.MainViewModel.CanRemoveKey | flutterArbEditor/ViewModels/MainViewModel.cs:243-246 | enabled iff some key is selected |
| MainViewModels.MainViewModel.AddNewKey | flutterArbEditor/ViewModels/MainViewModel.cs:195-219 | a blank name or an existing trimmed key changes nothing; otherwise every document gains the trimmed key with "", the key list holds it, it is selected and the name box is cleared |
| MainViewModels.MainViewModel.AcceptNewKey | flutterArbEditor/ViewModels/MainViewModel.cs:209-217 | for a key no document has: every document gains it with "", the keys are refreshed, it becomes the selection and the name is cleared |
| MainViewModels.MainViewModel.SelectNewKey | flutterArbEditor/ViewModels/MainViewModel.cs:216-217 | the key becomes the selection, its rows are shown if it changed, and the name box is cleared |
| MainViewModels.MainViewModel.InsertKey | flutterArbEditor/ViewModels/MainViewModel.cs:209-215 | every document gains the key and the refreshed key list contains it |
| MainViewModels.MainViewModel.AddKeyToAll | flutterArbEditor/ViewModels/MainViewModel.cs:210-213 | every listed document's translations gain the key with "" and nothing else |
| MainViewModels.MainViewModel.RemoveKey | flutterArbEditor/ViewModels/MainViewModel.cs:226-241 | when `CanRemoveKey` is false, no change; otherwise every document loses the key's text and placeholder, the key leaves the key list and the selection becomes "" |
| MainViewModels.MainViewModel.RemoveKeyFromAll | flutterArbEditor/ViewModels/MainViewModel.cs:232-235 | every listed document loses the key from both dictionaries and nothing else |
| AddFilesDialogViewModels.FilePreview.constructor | flutterArbEditor/ViewModels/AddFilesDialogViewModel.cs:13-27 | a preview holds the path, code, key count, document and status it is given |
| AddFilesDialogViewModels.FilePreview.StatusText | flutterArbEditor/ViewModels/AddFilesDialogViewModel.cs:29 | "Currently loaded" iff the file is open already, "New file" iff it is not |
| AddFilesDialogViewModels.DisplayCode | flutterArbEditor/ViewModels/AddFilesDialogViewModel.cs:146 | the shown language is never empty: the code, or "Unknown" for an empty one |
| AddFilesDialogViewModels.Paths | flutterArbEditor/ViewModels/AddFilesDialogViewModel.cs:207 | the previews' paths, one per preview in list order |
| AddFilesDialogViewModels.PathsAppend | flutterArbEditor/ViewModels/AddFilesDialogViewModel.cs:207 | the paths of two lists joined are the two path lists joined |
| AddFilesDialogViewModels.Languages | flutterArbEditor/ViewModels/AddFilesDialogViewModel.cs:67 | the previews' codes, one per preview in list order |
| AddFilesDialogViewModels.ListedIgnoringCase | flutterArbEditor/ViewModels/AddFilesDialogViewModel.cs:137 | a path held exactly is listed, and an empty list lists nothing |
| AddFilesDialogViewModels.ListedCaseVariant | flutterArbEditor/ViewModels/AddFilesDialogViewModel.cs:137 | a path that differs from a listed one only in the case of ASCII letters counts as listed |
| AddFilesDialogViewModels.Admitted | flutterArbEditor/ViewModels/AddFilesDialogViewModel.cs:134-157 | the paths the browse loop adds, in picked order; its properties are stated by `AdmittedSound`, `AdmittedComplete` and `AdmittedDistinct` |
| AddFilesDialogViewModels.AdmittedStep | flutterArbEditor/ViewModels/AddFilesDialogViewModel.cs:135-157 | each picked path is added iff no listed or earlier-added path equals it ignoring case and its file loads |
| AddFilesDialogViewModels.ListedExtends | flutterArbEditor/ViewModels/AddFilesDialogViewModel.cs:137 | a path found ignoring case stays found after more paths are appended |
| AddFilesDialogViewModels.AdmittedSound | flutterArbEditor/ViewModels/AddFilesDialogViewModel.cs:135-157 | every added path was picked, loads, and matches no earlier path ignoring case |
| AddFilesDialogViewModels.AdmittedComplete | flutterArbEditor/ViewModels/AddFilesDialogViewModel.cs:135-157 | after browsing, every picked file that loads is in the list up to case |
| AddFilesDialogViewModels.AdmittedDistinct | flutterArbEditor/ViewModels/AddFilesDialogViewModel.cs:137 | browsing never adds a second copy of a path up to case: a list without such copies stays without them |
| AddFilesDialogViewModels.CaseVariantNotAdmitted | flutterArbEditor/ViewModels/AddFilesDialogViewModel.cs:134-157 | browsing never adds a path that differs from a listed one only in letter case, whatever else is picked |
| AddFilesDialogViewModels.CaseVariantSkipped | flutterArbEditor/ViewModels/AddFilesDialogViewModel.cs:137-138 | picking only a letter-case variant of a listed path adds nothing |
| AddFilesDialogViewModels.CountStatus | flutterArbEditor/ViewModels/AddFilesDialogViewModel.cs:68-69 | a count is at most the list length, 0 iff no preview has the status, the length iff all have it |
| AddFilesDialogViewModels.CountsPartition | flutterArbEditor/ViewModels/AddFilesDialogViewModel.cs:68-69 | the open-file count plus the new-file count is the number of previews |
| AddFilesDialogViewModels.CountAppend | flutterArbEditor/ViewModels/AddFilesDialogViewModel.cs:68-69 | counting over two joined lists adds their counts |
| AddFilesDialogViewModels.AppendNewCounts | flutterArbEditor/ViewModels/AddFilesDialogViewModel.cs:143-151 | appending new-file previews keeps the open-file count and raises the new-file count by their number |
| AddFilesDialogViewModels.NameAfterSave | flutterArbEditor/ViewModels/AddFilesDialogViewModel.cs:212-215 | a blank or "Untitled Project" name takes the saved file's name; any other name stays |
| AddFilesDialogViewModels.RenamedOnce | flutterArbEditor/ViewModels/AddFilesDialogViewModel.cs:212-215 | once renamed to a real file name, later saves keep the name |
| AddFilesDialogViewModels.SaveLoadPaths | flutterArbEditor/ViewModels/AddFilesDialogViewModel.cs:203-264 | loading a saved project whose files all still load lists the same paths in the same order |
| AddFilesDialogViewModels.AddFilesDialogViewModel.constructor | flutterArbEditor/ViewModels/AddFilesDialogViewModel.cs:84-106 | the dialog starts as "Untitled Project" with one preview per open file, in order, marked currently loaded, no preview twice |
| AddFilesDialogViewModels.AddFilesDialogViewModel.LoadCurrentFiles | flutterArbEditor/ViewModels/AddFilesDialogViewModel.cs:108-122 | one fresh preview per open file with its path, cached code, key count and document, marked currently loaded |
| AddFilesDialogViewModels.AddFilesDialogViewModel.LoadPreview | flutterArbEditor/ViewModels/AddFilesDialogViewModel.cs:142-150 | a fresh new-file preview of a freshly loaded document, with "Unknown" for an empty code and the translation count |
| AddFilesDialogViewModels.AddFilesDialogViewModel.BrowseFiles | flutterArbEditor/ViewModels/AddFilesDialogViewModel.cs:124-159 | a cancelled dialog changes nothing; otherwise the list keeps its previews and gains a fresh preview for each admitted path, in pick order |
| AddFilesDialogViewModels.AddFilesDialogViewModel.AppendPicked | flutterArbEditor/ViewModels/AddFilesDialogViewModel.cs:135-157 | the loop appends exactly the admitted paths' previews, keeping no preview twice |
| AddFilesDialogViewModels.AddFilesDialogViewModel.BrowseOne | flutterArbEditor/ViewModels/AddFilesDialogViewModel.cs:137-156 | a path is added iff no listed path equals it ignoring case and its file loads |
| AddFilesDialogViewModels.AddFilesDialogViewModel.ClearAll | flutterArbEditor/ViewModels/AddFilesDialogViewModel.cs:161-164 | the list becomes empty |
| AddFilesDialogViewModels.AddFilesDialogViewModel.RemoveFile | flutterArbEditor/ViewModels/AddFilesDialogViewModel.cs:166-172 | no preview, no change; otherwise that very preview leaves the list and the others stay |
| AddFilesDialogViewModels.AddFilesDialogViewModel.HasNoFiles | flutterArbEditor/ViewModels/AddFilesDialogViewModel.cs:66 | true iff the list is empty |
| AddFilesDialogViewModels.AddFilesDialogViewModel.CanLoadFiles | flutterArbEditor/ViewModels/AddFilesDialogViewModel.cs:179-182 | loading is offered iff the list is not empty |
| AddFilesDialogViewModels.AddFilesDialogViewModel.CurrentlyLoadedCount | flutterArbEditor/ViewModels/AddFilesDialogViewModel.cs:68 | with the new-file count it accounts for every preview |
| AddFilesDialogViewModels.AddFilesDialogViewModel.NewFilesCount | flutterArbEditor/ViewModels/AddFilesDialogViewModel.cs:69 | 0 iff every preview is an open file |
| AddFilesDialogViewModels.AddFilesDialogViewModel.UniqueLanguageList | flutterArbEditor/ViewModels/AddFilesDialogViewModel.cs:67 | exactly the codes in the list, each once and ascending under a total order |
| AddFilesDialogViewModels.AddFilesDialogViewModel.UniqueLanguages | flutterArbEditor/ViewModels/AddFilesDialogViewModel.cs:67 | the distinct codes of `UniqueLanguageList`, ascending, joined with ", " ("" for an empty list) |
| AddFilesDialogViewModels.AddFilesDialogViewModel.SetProjectName | flutterArbEditor/ViewModels/AddFilesDialogViewModel.cs:71-78 | the name takes the value and the result says whether it changed |
| AddFilesDialogViewModels.AddFilesDialogViewModel.SaveProject | flutterArbEditor/ViewModels/AddFilesDialogViewModel.cs:189-223 | a cancelled dialog does nothing; otherwise the project written holds the name and the listed paths, with no Flutter path and sorting off, and only a successful write renames a blank or untitled project |
| AddFilesDialogViewModels.AddFilesDialogViewModel.LoadProject | flutterArbEditor/ViewModels/AddFilesDialogViewModel.cs:225-274 | a cancelled or unreadable project changes nothing; otherwise the list is replaced by fresh previews of the listed files that load, in project order, and the project's name is taken |
| AddFilesDialogViewModels.AddFilesDialogViewModel.LoadOne | flutterArbEditor/ViewModels/AddFilesDialogViewModel.cs:244-263 | a listed path gives a fresh new-file preview of its document exactly when its file loads |
| AddFilesDialogViewModels.AddFilesDialogViewModel.LoadPreviews | flutterArbEditor/ViewModels/AddFilesDialogViewModel.cs:242-264 | the loop builds one fresh preview per loadable listed path, in order, none twice |
| AddFilesDialogViewModels.AddFilesDialogViewModel.NewProject | flutterArbEditor/ViewModels/AddFilesDialogViewModel.cs:276-289 | after confirmation the list is empty and the name "Untitled Project"; otherwise nothing changes |

## Left out

- JSON text is not modelled. Parsing text into an object and rendering an
  object as text are the two functions of a `Codec` parameter, and the
  indented formatting of a written file is not modelled.
- File I/O is not modelled. Reading a file is a `Disk` parameter.
  `File.Exists` and a failed read are the same `None`. Writing a document
  ends with the object that would be written.
- Dialogs and message boxes become parameters holding the user's choice.
  `Path.GetFileNameWithoutExtension` of the saved project file is passed
  in. The default file name offered by the save dialog is not modelled.
- `PropertyChanged` notifications, `CollectionChanged` handlers, the logger,
  and the `CloseRequested` and `ProjectLoaded` events are not modelled.
  Neither are `LoadFiles` and `Cancel` (they only raise `CloseRequested`),
  nor the `FileName` properties (`Path.GetFileName`).
- `SaveAll`, `RunFlutterGen` (an external process), `SelectFlutterProject`,
  and the `FlutterProjectPath`, `SelectedFile` and `SortKeysOnSave`
  properties of the main window are not modelled. `SaveAll` is only
  `SaveToFile` per document, which is modelled.
- `ProjectFile` is a value in this model. Its `LoadFromFile`/`SaveToFile`
  (JSON serialisation), its fallback to an empty project when deserialisation
  yields null, and its `LastModified` timestamp are not modelled.
  flutterArbEditor/Models/ProjectFile.cs is not part of this model beyond the
  fields that `SaveProject` fills in.
- `App`, `MainWindow`, the dialog's code-behind, `TranslationKeyViewModel`
  and `TranslationKeyGroup` are not part of this model.
- Models.ArbFile.SaveToFile: assumes the `OrderBy` comparer is a total order, and
  does not fix the order of an unsorted save. .NET promises none for a
  dictionary once entries have been removed.
- MainViewModels.MainViewModel.RefreshTranslationKeys: sortedness is promised
  only under a total order. The culture-sensitive comparer is abstract.
- DotNetText.EqualsIgnoreCase: `OrdinalIgnoreCase` is modelled for ASCII
  letters only. The full Unicode simple case mapping is not modelled.
- AddFilesDialogViewModels.FilePreview: the properties have public setters
  in the source. The model makes them constant, because no code in the core
  changes them after the preview is created.
- AddFilesDialogViewModels.AddFilesDialogViewModel.LoadCurrentFiles:
  returns the previews that the constructor stores. The source appends them
  to the list, which is still empty at that point.
- Models.ClassifyProperty: tests the "@" prefix ordinally. `StartsWith("@")`
  without a `StringComparison` is culture-sensitive and ignores zero-weight
  code points, so a name such as U+00AD followed by "@foo" counts as metadata
  in .NET (stored under "@foo"); the model loads it as a translation.
- .NET strings are sequences of UTF-16 code units; a Dafny `string` holds
  Unicode scalar values, so a lone surrogate (a JSON `\ud800` escape) cannot
  be represented.
- AddFilesDialogViewModels.AddFilesDialogViewModel.LoadProject: a project
  file whose `ArbFilePaths` is null is not modelled (the list is a value). In
  .NET the list is cleared and the `foreach` then throws, so the preview list
  ends up empty and the project name is unchanged.
- C# `null` strings are not modelled. Every string is a value, and a null
  dialog result is `None`.
