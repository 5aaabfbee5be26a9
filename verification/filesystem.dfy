/** The file-system side of `Main`: the rename step each selected file goes
    through, and the run over every file found. The file system is the set
    of the paths of its files, each a directory and a base name. */
module FileSystem {
  import opened Strings
  import opened Renamer

  datatype FilePath = FilePath(directory: string, name: string)

  /** The line "Renaming {old name} to {new name}", as a value. */
  datatype Notification = Renaming(oldName: string, newName: string)

  /** The two `Where` filters of `Main`. Empty extension or rule lists
      select nothing, and with non-empty extension tokens only a file that
      has an extension can be selected. */
  predicate Selected(f: FilePath, extensions: seq<string>, pairs: seq<Pair>)
    ensures Selected(f, extensions, pairs) ==> extensions != [] && pairs != []
    ensures (forall i :: 0 <= i < |extensions| ==> extensions[i] != []) && Selected(f, extensions, pairs) ==>
      Extension(f.name) != []
  {
    HasAcceptedExtension(f.name, extensions) && HasAnythingToReplace(f.name, pairs)
  }

  /** `Path.Combine(file.DirectoryName, newName)`, taken as the path with
      the same directory and the new name. A file whose name has nothing to
      replace is its own destination. */
  function Destination(f: FilePath, pairs: seq<Pair>): (target: FilePath)
    requires Replaceable(pairs)
    ensures target.directory == f.directory
    ensures !HasAnythingToReplace(f.name, pairs) ==> target == f
  {
    FilePath(f.directory, ApplyReplacements(f.name, pairs))
  }

  /** The files after `f` has been considered: moved to its destination,
      unless a file is there already (`File.Exists`), in which case nothing
      changes. */
  function AfterRename(files: set<FilePath>, f: FilePath, pairs: seq<Pair>): (after: set<FilePath>)
    requires Replaceable(pairs)
    ensures Destination(f, pairs) in after
    ensures forall g :: g in files && g != f ==> g in after
    ensures forall g :: g in after ==> g in files || g == Destination(f, pairs)
  {
    var target := Destination(f, pairs);
    if target in files then files else files - {f} + {target}
  }

  /** The notification line of a file. */
  function NotificationOf(f: FilePath, pairs: seq<Pair>): Notification
    requires Replaceable(pairs)
  {
    Renaming(f.name, ApplyReplacements(f.name, pairs))
  }

  /** No path occurs twice (each file is enumerated once). */
  predicate Distinct(listing: seq<FilePath>)
  {
    forall i, j :: 0 <= i < j < |listing| ==> listing[i] != listing[j]
  }

  /** The files of `listing` that pass the two filters, in order: the
      `Where` clauses of `Main`. */
  function SelectFiles(listing: seq<FilePath>, extensions: seq<string>, pairs: seq<Pair>): (selected: seq<FilePath>)
    ensures forall f :: f in selected <==> f in listing && Selected(f, extensions, pairs)
    ensures Distinct(listing) ==> Distinct(selected)
    decreases |listing|
  {
    if listing == [] then []
    else
      var rest := SelectFiles(listing[1..], extensions, pairs);
      assert forall f :: f in listing <==> f == listing[0] || f in listing[1..];
      assert Distinct(listing) ==> Distinct(listing[1..]) && listing[0] !in listing[1..];
      if Selected(listing[0], extensions, pairs) then
        assert Distinct(listing) ==> forall j :: 0 <= j < |rest| ==> rest[j] != listing[0];
        [listing[0]] + rest
      else rest
  }

  /** The notifications of a run over the selected files, one per file, in
      the order the files are processed. */
  function NotificationsOf(selected: seq<FilePath>, pairs: seq<Pair>): (notes: seq<Notification>)
    requires Replaceable(pairs)
    ensures |notes| == |selected|
    ensures forall i :: 0 <= i < |notes| ==>
      notes[i].oldName == selected[i].name && notes[i].newName == ApplyReplacements(selected[i].name, pairs)
  {
    seq(|selected|, i requires 0 <= i < |selected| => NotificationOf(selected[i], pairs))
  }

  /** The files after a run over the selected files, processed in order. A
      file the run does not process is still there afterwards, and every file
      afterwards was there before or is the destination of a processed file. */
  function AfterAll(files: set<FilePath>, selected: seq<FilePath>, pairs: seq<Pair>): (after: set<FilePath>)
    requires Replaceable(pairs)
    ensures forall g :: g in files && g !in selected ==> g in after
    ensures forall g :: g in after ==> g in files || exists i :: 0 <= i < |selected| && g == Destination(selected[i], pairs)
    decreases |selected|
  {
    if selected == [] then files
    else AfterAll(AfterRename(files, selected[0], pairs), selected[1..], pairs)
  }

  /** A rename step neither loses nor overwrites a file: the number of files
      stays the same, the destination is taken afterwards, and the file has
      left its old place exactly when it moved. */
  lemma RenameKeepsCount(files: set<FilePath>, f: FilePath, pairs: seq<Pair>)
    requires Replaceable(pairs)
    requires f in files
    ensures |AfterRename(files, f, pairs)| == |files|
    ensures Destination(f, pairs) in AfterRename(files, f, pairs)
    ensures f in AfterRename(files, f, pairs) <==> Destination(f, pairs) in files
  {
    var target := Destination(f, pairs);
    if target !in files {
      var rest := files - {f};
      assert files == rest + {f};
      assert |files| == |rest| + 1;
      assert target !in rest;
      assert |rest + {target}| == |rest| + 1;
    }
  }

  /** A run over distinct files that exist neither loses nor overwrites a
      file. */
  lemma {:induction false} AfterAllKeepsCount(files: set<FilePath>, selected: seq<FilePath>, pairs: seq<Pair>)
    requires Replaceable(pairs)
    requires Distinct(selected)
    requires forall i :: 0 <= i < |selected| ==> selected[i] in files
    ensures |AfterAll(files, selected, pairs)| == |files|
    decreases |selected|
  {
    if selected != [] {
      var f := selected[0];
      var next := AfterRename(files, f, pairs);
      RenameKeepsCount(files, f, pairs);
      var tail := selected[1..];
      forall i | 0 <= i < |tail|
        ensures tail[i] in next
      {
        assert tail[i] == selected[i + 1] != f;
      }
      AfterAllKeepsCount(next, tail, pairs);
    }
  }

  /** A file the filters drop, or one that is not listed, is never moved. */
  lemma UnselectedUntouched(files: set<FilePath>, listing: seq<FilePath>, extensions: seq<string>, pairs: seq<Pair>, g: FilePath)
    requires Replaceable(pairs)
    requires g in files
    requires g !in listing || !Selected(g, extensions, pairs)
    ensures g in AfterAll(files, SelectFiles(listing, extensions, pairs), pairs)
  {
  }

  /** Exactly the selected files are announced: every notification belongs to
      a listed file the filters keep, and every such file has one. */
  lemma NotifiedIffSelected(listing: seq<FilePath>, extensions: seq<string>, pairs: seq<Pair>, n: Notification)
    requires Replaceable(pairs)
    ensures n in NotificationsOf(SelectFiles(listing, extensions, pairs), pairs) <==>
      exists f :: f in listing && Selected(f, extensions, pairs) && n == NotificationOf(f, pairs)
  {
    NotifiedIffProcessed(SelectFiles(listing, extensions, pairs), pairs, n);
  }

  /** Each processed file, and nothing else, is announced. */
  lemma NotifiedIffProcessed(selected: seq<FilePath>, pairs: seq<Pair>, n: Notification)
    requires Replaceable(pairs)
    ensures n in NotificationsOf(selected, pairs) <==> exists f :: f in selected && n == NotificationOf(f, pairs)
  {
    var notes := NotificationsOf(selected, pairs);
    if n in notes {
      var j :| 0 <= j < |notes| && notes[j] == n;
      assert selected[j] in selected;
    }
    if f :| f in selected && n == NotificationOf(f, pairs) {
      var j :| 0 <= j < |selected| && selected[j] == f;
      assert notes[j] == n;
    }
  }

  /** A file whose destination is taken stays where it is, the file at the
      destination is left alone, and the rename is still announced. */
  lemma CollisionSkipped(files: set<FilePath>, f: FilePath, pairs: seq<Pair>)
    requires Replaceable(pairs)
    requires f in files && Destination(f, pairs) in files
    ensures AfterAll(files, [f], pairs) == files
    ensures NotificationsOf([f], pairs) == [NotificationOf(f, pairs)]
  {
    assert [f][1..] == [];
  }

  /** The run over the selected files from index `i` on: `selected[i]`
      first, then the rest. */
  lemma AfterAllStep(files: set<FilePath>, selected: seq<FilePath>, i: nat, pairs: seq<Pair>)
    requires Replaceable(pairs) && i < |selected|
    ensures AfterAll(files, selected[i..], pairs) == AfterAll(AfterRename(files, selected[i], pairs), selected[i + 1..], pairs)
  {
    assert selected[i..][1..] == selected[i + 1..];
  }

  /** The notifications up to and including `selected[i]`. */
  lemma NotificationsStep(selected: seq<FilePath>, i: nat, pairs: seq<Pair>)
    requires Replaceable(pairs) && i < |selected|
    ensures NotificationsOf(selected[..i + 1], pairs) == NotificationsOf(selected[..i], pairs) + [NotificationOf(selected[i], pairs)]
  {
  }

  /** The files still to be processed after `selected[i]` are not moved by
      its rename step. */
  lemma RestStayPresent(files: set<FilePath>, selected: seq<FilePath>, i: nat, pairs: seq<Pair>)
    requires Replaceable(pairs) && Distinct(selected) && i < |selected|
    requires forall j :: i <= j < |selected| ==> selected[j] in files
    ensures forall j :: i < j < |selected| ==> selected[j] in AfterRename(files, selected[i], pairs)
  {
  }

  /** The files of the machine, updated in place by the rename steps. */
  class Volume {
    var files: set<FilePath>

    constructor(files: set<FilePath>)
      ensures this.files == files
    {
      this.files := files;
    }

    /** The body of the `Parallel.ForEach` in `Main` for one selected file:
        compute the new name, announce it, and move the file unless the
        destination is taken. */
    method RenameFile(f: FilePath, pairs: seq<Pair>) returns (note: Notification)
      requires Replaceable(pairs)
      requires f in files
      modifies this
      ensures note == NotificationOf(f, pairs)
      ensures files == AfterRename(old(files), f, pairs)
      ensures |files| == |old(files)|
    {
      RenameKeepsCount(files, f, pairs);
      var newName := ReplaceCharacters(f.name, pairs);
      note := Renaming(f.name, newName);
      var newFile := FilePath(f.directory, newName);
      if newFile in files {
        return;
      }
      files := files - {f} + {newFile};
    }

    /** The `Parallel.ForEach` of `Main` over the selected files, run one
        file after the other in their order. */
    method RenameAll(selected: seq<FilePath>, pairs: seq<Pair>) returns (notes: seq<Notification>)
      requires Replaceable(pairs)
      requires Distinct(selected)
      requires forall i :: 0 <= i < |selected| ==> selected[i] in files
      modifies this
      ensures notes == NotificationsOf(selected, pairs)
      ensures files == AfterAll(old(files), selected, pairs)
    {
      notes := [];
      var i := 0;
      assert selected[i..] == selected;
      while i < |selected|
        invariant 0 <= i <= |selected|
        invariant forall j :: i <= j < |selected| ==> selected[j] in files
        invariant notes == NotificationsOf(selected[..i], pairs)
        invariant AfterAll(files, selected[i..], pairs) == AfterAll(old(files), selected, pairs)
      {
        AfterAllStep(files, selected, i, pairs);
        RestStayPresent(files, selected, i, pairs);
        NotificationsStep(selected, i, pairs);
        var note := RenameFile(selected[i], pairs);
        notes := notes + [note];
        i := i + 1;
      }
      assert selected[|selected|..] == [] && selected[..|selected|] == selected;
    }

    /** `Main` given the files `Directory.GetFiles` lists under the root
        directory: the arguments are checked and parsed before any file is
        touched, then every selected file is renamed. */
    method Run(args: seq<string>, listing: seq<FilePath>) returns (outcome: Result<seq<Notification>>)
      requires Distinct(listing)
      requires forall i :: 0 <= i < |listing| ==> listing[i] in files
      modifies this
      ensures |args| < 3 ==> outcome == Err(TooFewArguments)
      ensures ParseArguments(args).Err? ==>
        outcome == Err(ParseArguments(args).error) && files == old(files)
      ensures ParseArguments(args).Ok? ==>
        var config := ParseArguments(args).value;
        var selected := SelectFiles(listing, config.extensions, config.pairs);
        && Replaceable(config.pairs)
        && outcome == Ok(NotificationsOf(selected, config.pairs))
        && files == AfterAll(old(files), selected, config.pairs)
    {
      var parsed := ParseArguments(args);
      if parsed.Err? {
        return Err(parsed.error);
      }
      var config := parsed.value;
      WellFormedReplaceable(config.pairs);
      var selected := SelectFiles(listing, config.extensions, config.pairs);
      assert forall f :: f in listing ==> f in files;
      assert forall i :: 0 <= i < |selected| ==> selected[i] in listing;
      var notes := RenameAll(selected, config.pairs);
      outcome := Ok(notes);
    }
  }
}
