/**
  How the window turns a chosen folder or a drop into a conversion job.
  `convert_folder` queues the folder's supported files and writes to its
  "converted" subfolder; `dropEvent` hands the first dropped directory to
  `convert_folder`, and otherwise queues the supported dropped files with the
  "converted" folder of the working directory as output.
*/
module Drop {

  import opened Wrappers
  import opened PyStr
  import opened PosixPath
  import opened Formats

  /** A queue of sources and the folder the worker writes to. */
  datatype Job = Job(files: seq<Path>, outputFolder: Path)

  /** The name of the output subfolder. */
  const ConvertedFolder: string := "converted"

  /**
    `convert_folder(folder)`, where `listing` is what `os.listdir(folder)` returns:
    a job is started exactly when some listed name is supported.
  */
  function ConvertFolder(folder: Path, listing: seq<string>): (r: Option<Job>)
    ensures r.Some? <==> exists i :: 0 <= i < |listing| && IsSupported(listing[i])
    ensures r.Some? ==> r.value.outputFolder == Join(folder, ConvertedFolder)
    ensures r.Some? ==> r.value.files == FolderFiles(folder, listing)
  {
    SomeNameSelected(listing);
    var files := FolderFiles(folder, listing);
    if files == [] then None else Some(Job(files, Join(folder, ConvertedFolder)))
  }

  /** The filter keeps something exactly when some name is supported. */
  lemma SomeNameSelected(names: seq<string>)
    ensures SelectSupported(names) != [] <==> exists i :: 0 <= i < |names| && IsSupported(names[i])
  {
    if SelectSupported(names) != [] {
      assert SelectSupported(names)[0] in SelectSupported(names);
    }
    if exists i :: 0 <= i < |names| && IsSupported(names[i]) {
      var i :| 0 <= i < |names| && IsSupported(names[i]);
      assert names[i] in SelectSupported(names);
    }
  }

  /** "a.CR2" and "b.dng" are RAW files. */
  lemma ScenarioRawNames()
    ensures IsSupported("a.CR2") && IsSupported("b.dng")
  {
    var a, b := "a.CR2", "b.dng";
    assert EndsWith(Lower(a), SupportedFormats[1]) by {
      assert Lower(a)[1..] == SupportedFormats[1];
    }
    assert EndsWith(Lower(b), SupportedFormats[5]) by {
      assert Lower(b)[1..] == SupportedFormats[5];
    }
  }

  /** Of "a.CR2", "a.txt" and "b.dng", the filter keeps the first and the last. */
  lemma MixedFolderSelection()
    ensures SelectSupported(["a.CR2", "a.txt", "b.dng"]) == ["a.CR2", "b.dng"]
  {
    var listing := ["a.CR2", "a.txt", "b.dng"];
    ScenarioRawNames();
    RejectedNames();
    var tail := listing[1..];
    assert tail[1..] == [listing[2]] && tail[1..][1..] == [];
    assert SelectSupported(tail[1..]) == [listing[2]];
    assert SelectSupported(tail) == [listing[2]];
  }

  /**
    A folder holding "a.CR2", "a.txt" and "b.dng" queues the two RAW files, in
    listing order, for its "converted" subfolder.
  */
  lemma MixedFolderScenario()
    ensures ConvertFolder("d", ["a.CR2", "a.txt", "b.dng"]) == Some(Job(["d/a.CR2", "d/b.dng"], "d/converted"))
  {
    var listing := ["a.CR2", "a.txt", "b.dng"];
    MixedFolderSelection();
    ScenarioJoins();
    var f := FolderFiles("d", listing);
    assert f == ["d/a.CR2", "d/b.dng"];
  }

  /** The scenario's paths: a folder without a trailing separator gets one. */
  lemma ScenarioJoins()
    ensures Join("d", "a.CR2") == "d/a.CR2" && Join("d", "b.dng") == "d/b.dng"
    ensures Join("d", ConvertedFolder) == "d/converted"
  {
  }

  /** What a drop leads to. */
  datatype DropAction =
    | ConvertDroppedFolder(folder: Path)   // `convert_folder` on the first dropped directory
    | StartJob(job: Job)                   // a job over the dropped files
    | NoAction                             // nothing supported was dropped

  /** The position of the first directory among the dropped paths, if any. */
  function FirstDirectory(paths: seq<Path>, dirs: set<Path>): (r: Option<nat>)
    ensures r.Some? ==> r.value < |paths| && paths[r.value] in dirs
    ensures r.Some? ==> forall j :: 0 <= j < r.value ==> paths[j] !in dirs
    ensures r.None? <==> forall j :: 0 <= j < |paths| ==> paths[j] !in dirs
    decreases |paths|
  {
    if paths == [] then None
    else if paths[0] in dirs then Some(0)
    else match FirstDirectory(paths[1..], dirs)
      case None => None
      case Some(i) => Some(i + 1)
  }

  /**
    What `dropEvent` does with the dropped `paths`, given which of them are
    directories and the working directory.
  */
  function DropPlan(paths: seq<Path>, dirs: set<Path>, cwd: Path): DropAction
  {
    match FirstDirectory(paths, dirs)
    case Some(i) => ConvertDroppedFolder(paths[i])
    case None =>
      var files := SelectSupported(paths);
      if files == [] then NoAction else StartJob(Job(files, Join(cwd, ConvertedFolder)))
  }

  /** The first directory wins, whatever comes before or after it. */
  lemma FirstDirectoryWins(paths: seq<Path>, dirs: set<Path>, cwd: Path, i: nat)
    requires i < |paths| && paths[i] in dirs
    requires forall j :: 0 <= j < i ==> paths[j] !in dirs
    ensures DropPlan(paths, dirs, cwd) == ConvertDroppedFolder(paths[i])
  {
    var r := FirstDirectory(paths, dirs);
    assert paths[i] in dirs;
  }

  /**
    Without a directory, the drop queues exactly the supported dropped files, each
    as often as it was dropped, in drop order, and writes to the working directory's "converted" folder.
  */
  lemma DroppedFilesPlan(paths: seq<Path>, dirs: set<Path>, cwd: Path)
    requires forall j :: 0 <= j < |paths| ==> paths[j] !in dirs
    ensures var a := DropPlan(paths, dirs, cwd);
      && !a.ConvertDroppedFolder?
      && (a.StartJob? ==>
        && a.job.outputFolder == Join(cwd, ConvertedFolder)
        && (forall x :: x in a.job.files <==> x in paths && IsSupported(x))
        && (forall x :: multiset(a.job.files)[x] == if IsSupported(x) then multiset(paths)[x] else 0)
        && IsSubsequence(a.job.files, paths))
      && (a.NoAction? <==> forall j :: 0 <= j < |paths| ==> !IsSupported(paths[j]))
  {
    SelectionCounts(paths);
    SelectionIsSubsequence(paths);
    SomeNameSelected(paths);
  }

  /** Filtering one more dropped path appends it when it is supported. */
  lemma SelectionGrows(paths: seq<Path>, i: nat)
    requires i < |paths|
    ensures SelectSupported(paths[..i + 1])
      == SelectSupported(paths[..i]) + (if IsSupported(paths[i]) then [paths[i]] else [])
  {
    assert paths[..i + 1] == paths[..i] + [paths[i]];
    SelectionDistributes(paths[..i], [paths[i]]);
    assert [paths[i]][1..] == [];
  }

  /** `dropEvent`: scan the drop in order, returning at the first directory. */
  method DropEvent(paths: seq<Path>, dirs: set<Path>, cwd: Path) returns (action: DropAction)
    ensures action == DropPlan(paths, dirs, cwd)
  {
    var outputFolder := Join(cwd, ConvertedFolder);
    var files: seq<Path> := [];
    var i := 0;
    while i < |paths|
      invariant 0 <= i <= |paths|
      invariant files == SelectSupported(paths[..i])
      invariant forall j :: 0 <= j < i ==> paths[j] !in dirs
    {
      var path := paths[i];
      if path in dirs {
        FirstDirectoryWins(paths, dirs, cwd, i);
        return ConvertDroppedFolder(path);
      }
      SelectionGrows(paths, i);
      if IsSupported(path) {
        files := files + [path];
      }
      i := i + 1;
    }
    assert paths[..i] == paths;
    if files != [] {
      action := StartJob(Job(files, outputFolder));
    } else {
      action := NoAction;
    }
  }
}
