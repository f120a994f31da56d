/** The "Add files" dialog (ViewModels/AddFilesDialogViewModel.cs): a list
    of previews that starts with the files already open, grows by browsing
    or by loading a project, shrinks by removal, and can be saved as a
    project. The file and message dialogs become parameters: what the user
    picked, or None when they cancelled. */
module AddFilesDialogViewModels {
  import opened Wrappers
  import opened DotNetText
  import opened Collections
  import opened JsonModel
  import opened Observable
  import opened Models
  import opened ArbFileViewModels

  const UntitledProject := "Untitled Project"
  const UnknownLanguage := "Unknown"
  const ProjectFormatVersion := "1.0"

  /** What a project file holds, apart from its save timestamp. */
  datatype ProjectFile = ProjectFile(
    version: string,
    projectName: string,
    flutterProjectPath: string,
    sortKeysOnSave: bool,
    arbFilePaths: seq<string>)

  /** One line of the dialog's list (FilePreviewViewModel). The dialog sets
      its properties once, when it creates it. */
  class FilePreview {
    const filePath: string
    const languageCode: string
    const keyCount: nat
    const arbFile: ArbFile
    const isCurrentlyLoaded: bool

    constructor (filePath: string, languageCode: string, keyCount: nat, arbFile: ArbFile, isCurrentlyLoaded: bool)
      ensures this.filePath == filePath && this.languageCode == languageCode
      ensures this.keyCount == keyCount && this.arbFile == arbFile
      ensures this.isCurrentlyLoaded == isCurrentlyLoaded
    {
      this.filePath := filePath;
      this.languageCode := languageCode;
      this.keyCount := keyCount;
      this.arbFile := arbFile;
      this.isCurrentlyLoaded := isCurrentlyLoaded;
    }

    /** The status column: the two texts tell an open file from a new one. */
    function StatusText(): (t: string)
      ensures t == "Currently loaded" <==> isCurrentlyLoaded
      ensures t == "New file" <==> !isCurrentlyLoaded
    {
      if isCurrentlyLoaded then "Currently loaded" else "New file"
    }
  }

  /** The language shown for a newly loaded file: its code, or "Unknown"
      when it has none. Never empty. */
  function DisplayCode(code: string): (r: string)
    ensures r != ""
    ensures IsNullOrEmpty(code) ==> r == UnknownLanguage
    ensures !IsNullOrEmpty(code) ==> r == code
  {
    if IsNullOrEmpty(code) then UnknownLanguage else code
  }

  /** The paths of a list of previews, in list order. */
  function Paths(previews: seq<FilePreview>): (r: seq<string>)
    ensures |r| == |previews|
    ensures forall i :: 0 <= i < |previews| ==> r[i] == previews[i].filePath
  {
    seq(|previews|, i requires 0 <= i < |previews| => previews[i].filePath)
  }

  lemma PathsAppend(a: seq<FilePreview>, b: seq<FilePreview>)
    ensures Paths(a + b) == Paths(a) + Paths(b)
  {
  }

  /** The language codes of a list of previews, in list order. */
  function Languages(previews: seq<FilePreview>): (r: seq<string>)
    ensures |r| == |previews|
    ensures forall i :: 0 <= i < |previews| ==> r[i] == previews[i].languageCode
  {
    seq(|previews|, i requires 0 <= i < |previews| => previews[i].languageCode)
  }

  /** Some path of `paths` equals `p` when case is ignored. */
  predicate ListedIgnoringCase(paths: seq<string>, p: string): (r: bool)
    ensures p in paths ==> r
    ensures r ==> paths != []
  {
    exists i :: 0 <= i < |paths| && EqualsIgnoreCase(paths[i], p)
  }

  /** A path that differs from a listed one only in the case of ASCII
      letters counts as listed. */
  lemma ListedCaseVariant(paths: seq<string>, q: string, p: string)
    requires q in paths && CaseVariants(q, p)
    ensures ListedIgnoringCase(paths, p)
  {
    EqualsIgnoreCaseIff(q, p);
    var i :| 0 <= i < |paths| && paths[i] == q;
    assert EqualsIgnoreCase(paths[i], p);
  }

  /** No two paths of `paths` are equal when case is ignored. */
  predicate DistinctIgnoringCase(paths: seq<string>) {
    forall i, j :: 0 <= i < j < |paths| ==> !EqualsIgnoreCase(paths[i], paths[j])
  }

  /** The paths that browsing adds to a list holding `listed`, in the order
      they were picked: a picked path is skipped when the list already holds
      it ignoring case (including a path added earlier in the same batch),
      or when its file does not load. */
  function Admitted(listed: seq<string>, picked: seq<string>, disk: Disk, codec: Codec): seq<string> {
    if picked == [] then []
    else
      var n := |picked| - 1;
      var init := Admitted(listed, picked[..n], disk, codec);
      if ListedIgnoringCase(listed + init, picked[n]) || ReadArbFile(disk, codec, picked[n]).None? then init
      else init + [picked[n]]
  }

  /** How `Admitted` grows by one picked path. */
  lemma AdmittedStep(listed: seq<string>, picked: seq<string>, i: nat, disk: Disk, codec: Codec)
    requires i < |picked|
    ensures Admitted(listed, picked[..i + 1], disk, codec) ==
      var init := Admitted(listed, picked[..i], disk, codec);
      init + if !ListedIgnoringCase(listed + init, picked[i]) && ReadArbFile(disk, codec, picked[i]).Some? then [picked[i]] else []
  {
    assert picked[..i + 1][..i] == picked[..i];
  }

  /** Appending to a list keeps what it held. */
  lemma ListedExtends(xs: seq<string>, ys: seq<string>, p: string)
    requires ListedIgnoringCase(xs, p)
    ensures ListedIgnoringCase(xs + ys, p)
  {
    var i :| 0 <= i < |xs| && EqualsIgnoreCase(xs[i], p);
    assert (xs + ys)[i] == xs[i];
  }

  /** Every admitted path was picked, loads, and matches, ignoring case,
      neither a listed path nor a path admitted before it. */
  lemma {:induction false} AdmittedSound(listed: seq<string>, picked: seq<string>, disk: Disk, codec: Codec)
    ensures forall i :: 0 <= i < |Admitted(listed, picked, disk, codec)| ==>
      var a := Admitted(listed, picked, disk, codec);
      && a[i] in picked
      && ReadArbFile(disk, codec, a[i]).Some?
      && !ListedIgnoringCase(listed + a[..i], a[i])
  {
    if picked != [] {
      var n := |picked| - 1;
      var init := Admitted(listed, picked[..n], disk, codec);
      var a := Admitted(listed, picked, disk, codec);
      AdmittedSound(listed, picked[..n], disk, codec);
      assert forall p :: p in picked[..n] ==> p in picked;
      assert forall i :: 0 <= i <= |init| && i <= |a| ==> a[..i] == init[..i];
    }
  }

  /** After browsing, every picked file that loads is in the list, up to
      case: either it was there already or it has been added. */
  lemma {:induction false} AdmittedComplete(listed: seq<string>, picked: seq<string>, disk: Disk, codec: Codec)
    ensures forall p :: p in picked && ReadArbFile(disk, codec, p).Some? ==>
      ListedIgnoringCase(listed + Admitted(listed, picked, disk, codec), p)
  {
    if picked != [] {
      var n := |picked| - 1;
      var init := Admitted(listed, picked[..n], disk, codec);
      var a := Admitted(listed, picked, disk, codec);
      AdmittedComplete(listed, picked[..n], disk, codec);
      assert listed + a == (listed + init) + a[|init|..];
      forall p | p in picked && ReadArbFile(disk, codec, p).Some?
        ensures ListedIgnoringCase(listed + a, p)
      {
        if ListedIgnoringCase(listed + init, p) {
          ListedExtends(listed + init, a[|init|..], p);
        } else {
          assert picked == picked[..n] + [picked[n]];
          assert p == picked[n] && a == init + [p];
          assert (listed + a)[|listed + init|] == p;
        }
      }
    }
  }

  /** Browsing never adds a path that differs from a listed one only in
      the case of ASCII letters, whatever else was picked. */
  lemma CaseVariantNotAdmitted(listed: seq<string>, picked: seq<string>, disk: Disk, codec: Codec, q: string, p: string)
    requires q in listed && CaseVariants(q, p)
    ensures p !in Admitted(listed, picked, disk, codec)
  {
    var a := Admitted(listed, picked, disk, codec);
    AdmittedSound(listed, picked, disk, codec);
    if p in a {
      var i :| 0 <= i < |a| && a[i] == p;
      ListedCaseVariant(listed + a[..i], q, p);
      assert false;
    }
  }

  /** Picking only a case variant of a listed path adds nothing. */
  lemma CaseVariantSkipped(listed: seq<string>, disk: Disk, codec: Codec, q: string, p: string)
    requires q in listed && CaseVariants(q, p)
    ensures Admitted(listed, [p], disk, codec) == []
  {
    AdmittedSound(listed, [p], disk, codec);
    CaseVariantNotAdmitted(listed, [p], disk, codec, q, p);
  }

  /** Browsing never brings in a second copy of a path, up to case: a list
      free of such copies stays free of them. */
  lemma AdmittedDistinct(listed: seq<string>, picked: seq<string>, disk: Disk, codec: Codec)
    requires DistinctIgnoringCase(listed)
    ensures DistinctIgnoringCase(listed + Admitted(listed, picked, disk, codec))
  {
    var a := Admitted(listed, picked, disk, codec);
    var all := listed + a;
    AdmittedSound(listed, picked, disk, codec);
    forall i, j | 0 <= i < j < |all| ensures !EqualsIgnoreCase(all[i], all[j]) {
      if j >= |listed| {
        var m := j - |listed|;
        assert all[j] == a[m];
        assert (listed + a[..m])[i] == all[i];
      }
    }
  }

  /** `e` is the preview the dialog builds for `path` when it reads the
      properties `json` from it: a fresh document loaded from them, shown
      as a new file with its code (or "Unknown") and its key count. */
  ghost predicate NewPreview(e: FilePreview, path: string, json: seq<Prop>, codec: Codec)
    reads e.arbFile
  {
    && e.filePath == path
    && e.arbFile.filePath == path
    && e.arbFile.Value() == Classify(json, codec)
    && e.languageCode == DisplayCode(e.arbFile.languageCode)
    && e.keyCount == |e.arbFile.translations|
    && !e.isCurrentlyLoaded
  }

  /** `e` is a preview of the file at `path` as it is on `disk`. */
  ghost predicate PreviewOfFile(e: FilePreview, path: string, disk: Disk, codec: Codec)
    reads e.arbFile
  {
    && ReadArbFile(disk, codec, path).Some?
    && NewPreview(e, path, ReadArbFile(disk, codec, path).value, codec)
  }

  /** `e` is the preview of an open file: the same document, with the code
      and key count the open file shows. */
  ghost predicate CurrentPreview(e: FilePreview, vm: ArbFileViewModel)
    reads vm, vm.arbFile
  {
    && e.filePath == vm.arbFile.filePath
    && e.languageCode == vm.languageCode
    && e.keyCount == |vm.arbFile.translations|
    && e.arbFile == vm.arbFile
    && e.isCurrentlyLoaded
  }

  /** How many previews have the given status (`Count(f => ...)`). */
  function CountStatus(previews: seq<FilePreview>, loaded: bool): (n: nat)
    ensures n <= |previews|
    ensures n == 0 <==> forall i :: 0 <= i < |previews| ==> previews[i].isCurrentlyLoaded != loaded
    ensures n == |previews| <==> forall i :: 0 <= i < |previews| ==> previews[i].isCurrentlyLoaded == loaded
  {
    if previews == [] then 0
    else
      var k := |previews| - 1;
      assert forall i :: 0 <= i < k ==> previews[..k][i] == previews[i];
      CountStatus(previews[..k], loaded) + if previews[k].isCurrentlyLoaded == loaded then 1 else 0
  }

  /** Every preview is either open already or new. */
  lemma {:induction false} CountsPartition(previews: seq<FilePreview>)
    ensures CountStatus(previews, true) + CountStatus(previews, false) == |previews|
  {
    if previews != [] {
      CountsPartition(previews[..|previews| - 1]);
    }
  }

  /** Counting over a list made of two parts adds the counts of the parts. */
  lemma {:induction false} CountAppend(a: seq<FilePreview>, b: seq<FilePreview>, loaded: bool)
    ensures CountStatus(a + b, loaded) == CountStatus(a, loaded) + CountStatus(b, loaded)
  {
    if b != [] {
      var k := |b| - 1;
      assert (a + b)[..|a + b| - 1] == a + b[..k];
      CountAppend(a, b[..k], loaded);
    } else {
      assert a + b == a;
    }
  }

  /** Appending new-file previews, as browsing does, leaves the count of
      open files alone and raises the count of new files by their number. */
  lemma AppendNewCounts(previews: seq<FilePreview>, added: seq<FilePreview>)
    requires forall i :: 0 <= i < |added| ==> !added[i].isCurrentlyLoaded
    ensures CountStatus(previews + added, true) == CountStatus(previews, true)
    ensures CountStatus(previews + added, false) == CountStatus(previews, false) + |added|
  {
    CountAppend(previews, added, true);
    CountAppend(previews, added, false);
  }

  /** A project's name after a successful save to a file called
      `baseName`: a blank or default name takes the file's name, any other
      name stays. */
  function NameAfterSave(current: string, baseName: string): (r: string)
    ensures IsNullOrEmpty(current) || current == UntitledProject ==> r == baseName
    ensures !IsNullOrEmpty(current) && current != UntitledProject ==> r == current
  {
    if IsNullOrEmpty(current) || current == UntitledProject then baseName else current
  }

  /** Only the first save renames: once the project carries a real file
      name, saving again under any name keeps it. */
  lemma RenamedOnce(current: string, first: string, second: string)
    requires first != "" && first != UntitledProject
    ensures NameAfterSave(NameAfterSave(current, first), second) == NameAfterSave(current, first)
  {
  }

  class AddFilesDialogViewModel {
    /** The comparer `OrderBy` uses for language codes. */
    const order: Comparer
    /** The JSON library files are read with. */
    const codec: Codec
    /** The files open in the editor when the dialog was created. */
    const currentlyLoadedFiles: seq<ArbFileViewModel>
    var projectName: string
    var previewFiles: seq<FilePreview>

    /** The dialog starts as an untitled project listing the open files. */
    constructor (currentlyLoadedFiles: seq<ArbFileViewModel>, order: Comparer, codec: Codec)
      ensures this.currentlyLoadedFiles == currentlyLoadedFiles
      ensures this.order == order && this.codec == codec
      ensures projectName == UntitledProject
      ensures |previewFiles| == |currentlyLoadedFiles|
      ensures forall j :: 0 <= j < |previewFiles| ==>
        fresh(previewFiles[j]) && CurrentPreview(previewFiles[j], currentlyLoadedFiles[j])
      ensures NoDuplicates(previewFiles)
    {
      this.currentlyLoadedFiles := currentlyLoadedFiles;
      this.order := order;
      this.codec := codec;
      projectName := UntitledProject;
      previewFiles := [];
      new;
      previewFiles := LoadCurrentFiles();
    }

    /** `LoadCurrentFiles`, which fills the still empty list: one preview
        per open file, in order, marked as currently loaded. */
    method LoadCurrentFiles() returns (entries: seq<FilePreview>)
      ensures |entries| == |currentlyLoadedFiles|
      ensures forall j :: 0 <= j < |entries| ==>
        fresh(entries[j]) && CurrentPreview(entries[j], currentlyLoadedFiles[j])
      ensures NoDuplicates(entries)
    {
      entries := [];
      for i := 0 to |currentlyLoadedFiles|
        invariant |entries| == i
        invariant forall j :: 0 <= j < i ==>
          fresh(entries[j]) && CurrentPreview(entries[j], currentlyLoadedFiles[j])
        invariant NoDuplicates(entries)
      {
        var vm := currentlyLoadedFiles[i];
        var preview := new FilePreview(vm.arbFile.filePath, vm.languageCode, |vm.arbFile.translations|, vm.arbFile, true);
        entries := entries + [preview];
      }
    }

    /** Reads the file at `path`, already parsed into `json`, into a new
        preview. */
    method LoadPreview(path: string, json: seq<Prop>) returns (e: FilePreview)
      ensures fresh(e) && fresh(e.arbFile)
      ensures NewPreview(e, path, json, codec)
    {
      var arbFile := ArbFile.LoadFromFile(path, json, codec);
      e := new FilePreview(path, DisplayCode(arbFile.languageCode), |arbFile.translations|, arbFile, false);
    }

    /** `BrowseFiles`: `picked` is what the file dialog returned (None when
        cancelled). The admitted paths are appended, in order, each with a
        fresh preview of its file. */
    method BrowseFiles(picked: Option<seq<string>>, disk: Disk)
      modifies this`previewFiles
      ensures picked.None? ==> previewFiles == old(previewFiles)
      ensures picked.Some? ==>
        && old(previewFiles) <= previewFiles
        && Paths(previewFiles) == Paths(old(previewFiles)) + Admitted(Paths(old(previewFiles)), picked.value, disk, codec)
        && forall j :: |old(previewFiles)| <= j < |previewFiles| ==>
             var e := previewFiles[j];
             fresh(e) && fresh(e.arbFile) && PreviewOfFile(e, e.filePath, disk, codec)
      ensures NoDuplicates(old(previewFiles)) ==> NoDuplicates(previewFiles)
    {
      if picked.Some? {
        var entries := AppendPicked(picked.value, disk);
        PathsAppend(old(previewFiles), entries);
        assert forall j :: |old(previewFiles)| <= j < |previewFiles| ==> previewFiles[j] == entries[j - |old(previewFiles)|];
      }
    }

    /** The loop of `BrowseFiles` over the picked paths. */
    method AppendPicked(fileNames: seq<string>, disk: Disk) returns (entries: seq<FilePreview>)
      modifies this`previewFiles
      ensures previewFiles == old(previewFiles) + entries
      ensures Paths(entries) == Admitted(Paths(old(previewFiles)), fileNames, disk, codec)
      ensures forall j :: 0 <= j < |entries| ==>
        fresh(entries[j]) && fresh(entries[j].arbFile) && PreviewOfFile(entries[j], entries[j].filePath, disk, codec)
      ensures NoDuplicates(old(previewFiles)) ==> NoDuplicates(previewFiles)
    {
      ghost var before := previewFiles;
      entries := [];
      for i := 0 to |fileNames|
        invariant previewFiles == before + entries
        invariant Paths(entries) == Admitted(Paths(before), fileNames[..i], disk, codec)
        invariant forall j :: 0 <= j < |entries| ==>
          fresh(entries[j]) && fresh(entries[j].arbFile) && PreviewOfFile(entries[j], entries[j].filePath, disk, codec)
        invariant NoDuplicates(before) ==> NoDuplicates(previewFiles)
      {
        AdmittedStep(Paths(before), fileNames, i, disk, codec);
        PathsAppend(before, entries);
        var preview := BrowseOne(fileNames[i], disk);
        if preview.Some? {
          PathsAppend(entries, [preview.value]);
          entries := entries + [preview.value];
        }
      }
      assert fileNames[..|fileNames|] == fileNames;
    }

    /** One picked path: a path the list already holds, ignoring case, or
        a file that does not load is skipped; otherwise a fresh preview of
        the file is appended. */
    method BrowseOne(fileName: string, disk: Disk) returns (preview: Option<FilePreview>)
      modifies this`previewFiles
      ensures preview.Some? <==>
        !ListedIgnoringCase(Paths(old(previewFiles)), fileName) && ReadArbFile(disk, codec, fileName).Some?
      ensures preview.None? ==> previewFiles == old(previewFiles)
      ensures preview.Some? ==>
        && previewFiles == old(previewFiles) + [preview.value]
        && fresh(preview.value) && fresh(preview.value.arbFile)
        && preview.value.filePath == fileName
        && PreviewOfFile(preview.value, fileName, disk, codec)
      ensures NoDuplicates(old(previewFiles)) ==> NoDuplicates(previewFiles)
    {
      preview := None;
      if !ListedIgnoringCase(Paths(previewFiles), fileName) {
        match ReadArbFile(disk, codec, fileName)
        case None =>
        case Some(json) =>
          var e := LoadPreview(fileName, json);
          previewFiles := previewFiles + [e];
          preview := Some(e);
      }
    }

    /** `ClearAll`. */
    method ClearAll()
      modifies this`previewFiles
      ensures previewFiles == []
    {
      previewFiles := [];
    }

    /** `RemoveFile`: no preview, no change; otherwise that very preview
        leaves the list and the others stay. */
    method RemoveFile(file: Option<FilePreview>)
      modifies this`previewFiles
      ensures file.None? ==> previewFiles == old(previewFiles)
      ensures file.Some? ==> previewFiles == RemoveFirst(old(previewFiles), file.value)
      ensures file.Some? && NoDuplicates(old(previewFiles)) ==>
        file.value !in previewFiles && NoDuplicates(previewFiles)
    {
      if file.Some? {
        previewFiles := RemoveFirst(previewFiles, file.value);
      }
    }

    /** `HasNoFiles`. */
    function HasNoFiles(): (r: bool)
      reads this
      ensures r <==> previewFiles == []
    {
      |previewFiles| == 0
    }

    /** `CanLoadFiles`: loading is offered exactly when the list is not
        empty. */
    function CanLoadFiles(): (r: bool)
      reads this
      ensures r <==> !HasNoFiles()
    {
      |previewFiles| > 0
    }

    /** `CurrentlyLoadedCount`: with `NewFilesCount` it accounts for every
        preview. */
    function CurrentlyLoadedCount(): (n: nat)
      reads this
      ensures n + NewFilesCount() == |previewFiles|
    {
      CountsPartition(previewFiles);
      CountStatus(previewFiles, true)
    }

    /** `NewFilesCount`. */
    function NewFilesCount(): (n: nat)
      reads this
      ensures n == 0 <==> forall i :: 0 <= i < |previewFiles| ==> previewFiles[i].isCurrentlyLoaded
    {
      CountStatus(previewFiles, false)
    }

    /** The language codes shown in the list, each once, ascending under a
        total order. */
    function UniqueLanguageList(): (r: seq<string>)
      reads this
      ensures forall l :: l in r <==> exists i :: 0 <= i < |previewFiles| && previewFiles[i].languageCode == l
      ensures TotalOrder(order) ==> StrictlySorted(r, order)
    {
      var codes := Languages(previewFiles);
      assert forall l :: l in codes <==> exists i :: 0 <= i < |previewFiles| && previewFiles[i].languageCode == l;
      SortedDistinct(codes, order)
    }

    /** `UniqueLanguages`: the list above joined with ", "; empty for an
        empty list. */
    function UniqueLanguages(): (s: string)
      reads this
      ensures previewFiles == [] ==> s == ""
      ensures previewFiles != [] ==> UniqueLanguageList()[0] <= s
      ensures s == Join(", ", UniqueLanguageList())
    {
      var list := UniqueLanguageList();
      assert previewFiles != [] ==> previewFiles[0].languageCode in list;
      Join(", ", list)
    }

    /** The `ProjectName` setter. */
    method SetProjectName(value: string) returns (changed: bool)
      modifies this`projectName
      ensures changed <==> value != old(projectName)
      ensures projectName == value
    {
      var update := SetProperty(projectName, value);
      projectName, changed := update.0, update.1;
    }

    /** `SaveProject`: `chosen` is the base name of the file the save
        dialog returned (None when cancelled) and `written` says whether
        writing it succeeded. The result is the project handed to the
        writer: the name and the listed paths, with no Flutter project path
        and sorting off. Only a successful write renames a blank or
        untitled project after the file. */
    method SaveProject(chosen: Option<string>, written: bool) returns (project: Option<ProjectFile>)
      modifies this`projectName
      ensures chosen.None? ==> project.None? && projectName == old(projectName)
      ensures chosen.Some? ==>
        project == Some(ProjectFile(ProjectFormatVersion, old(projectName), "", false, Paths(previewFiles)))
      ensures chosen.Some? && written ==> projectName == NameAfterSave(old(projectName), chosen.value)
      ensures chosen.Some? && !written ==> projectName == old(projectName)
    {
      if chosen.None? {
        return None;
      }
      project := Some(ProjectFile(ProjectFormatVersion, projectName, "", false, Paths(previewFiles)));
      if written && (IsNullOrEmpty(projectName) || projectName == UntitledProject) {
        projectName := chosen.value;
      }
    }

    /** `LoadProject`: `project` is the project read from the chosen file
        (None when the dialog was cancelled or the file could not be read).
        The list is replaced by one new-file preview per listed path whose
        file loads, in project order and with no duplicate check, and the
        project's name is taken. */
    method LoadProject(project: Option<ProjectFile>, disk: Disk)
      modifies this`previewFiles, this`projectName
      ensures project.None? ==> previewFiles == old(previewFiles) && projectName == old(projectName)
      ensures project.Some? ==>
        && projectName == project.value.projectName
        && Paths(previewFiles) == Loadable(project.value.arbFilePaths, disk, codec)
        && NoDuplicates(previewFiles)
        && forall j :: 0 <= j < |previewFiles| ==>
             var e := previewFiles[j];
             fresh(e) && fresh(e.arbFile) && PreviewOfFile(e, e.filePath, disk, codec)
    {
      if project.Some? {
        previewFiles := LoadPreviews(project.value.arbFilePaths, disk);
        projectName := project.value.projectName;
      }
    }

    /** The loop of `LoadProject`: one new preview per path whose file
        loads. */
    method LoadPreviews(filePaths: seq<string>, disk: Disk) returns (entries: seq<FilePreview>)
      ensures Paths(entries) == Loadable(filePaths, disk, codec)
      ensures NoDuplicates(entries)
      ensures forall j :: 0 <= j < |entries| ==>
        fresh(entries[j]) && fresh(entries[j].arbFile) && PreviewOfFile(entries[j], entries[j].filePath, disk, codec)
    {
      entries := [];
      for i := 0 to |filePaths|
        invariant Paths(entries) == Loadable(filePaths[..i], disk, codec)
        invariant NoDuplicates(entries)
        invariant forall j :: 0 <= j < |entries| ==>
          fresh(entries[j]) && fresh(entries[j].arbFile) && PreviewOfFile(entries[j], entries[j].filePath, disk, codec)
      {
        LoadableStep(filePaths, i, disk, codec);
        var preview := LoadOne(filePaths[i], disk);
        if preview.Some? {
          PathsAppend(entries, [preview.value]);
          entries := entries + [preview.value];
        }
      }
      assert filePaths[..|filePaths|] == filePaths;
    }

    /** One listed path of a project: a file that does not load is skipped;
        otherwise a fresh preview of it is made. */
    method LoadOne(filePath: string, disk: Disk) returns (preview: Option<FilePreview>)
      ensures preview.Some? <==> ReadArbFile(disk, codec, filePath).Some?
      ensures preview.Some? ==>
        && fresh(preview.value) && fresh(preview.value.arbFile)
        && preview.value.filePath == filePath
        && PreviewOfFile(preview.value, filePath, disk, codec)
    {
      preview := None;
      match ReadArbFile(disk, codec, filePath)
      case None =>
      case Some(json) =>
        var e := LoadPreview(filePath, json);
        preview := Some(e);
    }

    /** `NewProject`: after the user confirms, the list is emptied and the
        name reset; otherwise nothing changes. */
    method NewProject(confirmed: bool)
      modifies this`previewFiles, this`projectName
      ensures confirmed ==> previewFiles == [] && projectName == UntitledProject
      ensures !confirmed ==> previewFiles == old(previewFiles) && projectName == old(projectName)
    {
      if confirmed {
        previewFiles := [];
        projectName := UntitledProject;
      }
    }
  }

  /** Saving a project and loading it back, with every listed file still
      loadable, lists the same paths again in the same order. */
  lemma SaveLoadPaths(previews: seq<FilePreview>, disk: Disk, codec: Codec)
    requires forall i :: 0 <= i < |previews| ==> ReadArbFile(disk, codec, previews[i].filePath).Some?
    ensures Loadable(Paths(previews), disk, codec) == Paths(previews)
  {
    LoadableAll(Paths(previews), disk, codec);
  }
}
