/** The state behind the subtitle fixer window: the list of chosen files with their
    checkboxes, the repaired files kept in memory, and the enabled state of the
    "Clear all files" and "Save file(s)" buttons. */
module App {
  import opened Text
  import opened MappingTable
  import opened SubtitleProcessing

  const SrtSuffix: String := ".srt"
  const FixedSuffix: String := "_tr.srt"

  /** A row of the file list: the path and whether its checkbox is ticked. */
  datatype FileItem = FileItem(path: String, checked: bool)

  /** A repaired file held in memory: its output path and its repaired text. */
  type FixedFile = (String, String)

  /** The dialog `AddFile` shows, or none when the file was added. */
  datatype AddStatus = Added | NotSrt | AlreadyAdded

  /** How a fixing run ends: every checked file repaired, or stopped at the first failure. */
  datatype FixOutcome =
    | Completed(files: seq<FixedFile>)
    | Aborted(files: seq<FixedFile>, failedPath: String)

  /** The listed paths, in list order. */
  function Paths(items: seq<FileItem>): seq<String>
  {
    seq(|items|, i requires 0 <= i < |items| => items[i].path)
  }

  /** The list rules: only `.srt` paths, none of them twice. */
  ghost predicate ValidList(items: seq<FileItem>)
  {
    && (forall i :: 0 <= i < |items| ==> EndsWith(items[i].path, SrtSuffix))
    && (forall i, j :: 0 <= i < j < |items| ==> items[i].path != items[j].path)
  }

  /** The output name: every ".srt" in the path becomes "_tr.srt". */
  function FixedFilePath(path: String): String
  {
    ReplaceAll(path, SrtSuffix, FixedSuffix)
  }

  /** A listed path yields an output name ending in "_tr.srt": ".srt" cannot overlap
      itself, so the final ".srt" is always one of the replaced matches. */
  lemma FixedFilePathSuffix(path: String)
    requires EndsWith(path, SrtSuffix)
    ensures EndsWith(FixedFilePath(path), FixedSuffix)
  {
    assert SrtSuffix[0] !in SrtSuffix[1..];
    FirstCharUniqueUnbordered(SrtSuffix);
    ReplaceKeepsSuffix(path, SrtSuffix, FixedSuffix);
  }

  /** Every ".srt" in any path is replaced, not only the final one: the output name is the
      path split at ".srt" and joined with "_tr.srt", and every occurrence of ".srt" in the
      path is one of the separators of that split. */
  lemma FixedFilePathReplacesEveryMatch(path: String)
    ensures FixedFilePath(path) == Join(Split(path, SrtSuffix), FixedSuffix)
    ensures MatchesAreSeparators(path, SrtSuffix, Split(path, SrtSuffix))
  {
    ReplaceIsJoinOfSplit(path, SrtSuffix, FixedSuffix);
    assert SrtSuffix[0] !in SrtSuffix[1..];
    FirstCharUniqueUnbordered(SrtSuffix);
    EveryMatchIsSeparator(path, SrtSuffix);
  }

  /** An instance: "a.srt/b.srt" becomes "a_tr.srt/b_tr.srt" for any `p` and `q` without a '.'. */
  lemma FixedFilePathTwoMatches(p: String, q: String)
    requires '.' !in p && '.' !in q
    ensures FixedFilePath(p + SrtSuffix + q + SrtSuffix) == p + FixedSuffix + q + FixedSuffix
  {
    ReplaceTwoMatches(p, q, SrtSuffix, FixedSuffix);
  }

  /** The checked items, in list order: an item is selected exactly when it is listed and
      ticked, and the selection is no longer than the list. */
  function Selected(items: seq<FileItem>): (sel: seq<FileItem>)
    ensures forall x :: x in sel <==> x in items && x.checked
    ensures |sel| <= |items|
  {
    if items == [] then []
    else
      var n := |items| - 1;
      Selected(items[..n]) + (if items[n].checked then [items[n]] else [])
  }

  /** What the fixing loop does over `items`: repairs each checked file in order and
      records it under its output name, stopping at the first file that cannot be read. */
  function FixRun(items: seq<FileItem>, table: Table, readDecoded: String -> Option<String>)
    : FixOutcome
  {
    if items == [] then Completed([])
    else
      var n := |items| - 1;
      match FixRun(items[..n], table, readDecoded)
      case Aborted(fs, p) => Aborted(fs, p)
      case Completed(fs) =>
        var item := items[n];
        if !item.checked then Completed(fs)
        else if readDecoded(item.path).None? then Aborted(fs, item.path)
        else Completed(fs + [(FixedFilePath(item.path), Repair(table, readDecoded(item.path).value))])
  }

  /** Every checked file can be read and decoded. */
  ghost predicate AllReadable(items: seq<FileItem>, readDecoded: String -> Option<String>)
  {
    forall i :: 0 <= i < |items| && items[i].checked ==> readDecoded(items[i].path).Some?
  }

  /** The repaired files for a list of checked, readable items, one per item, in order. */
  function Outputs(sel: seq<FileItem>, table: Table, readDecoded: String -> Option<String>)
    : seq<FixedFile>
    requires forall i :: 0 <= i < |sel| ==> readDecoded(sel[i].path).Some?
  {
    seq(|sel|, i requires 0 <= i < |sel| && readDecoded(sel[i].path).Some? =>
      (FixedFilePath(sel[i].path), Repair(table, readDecoded(sel[i].path).value)))
  }

  /** A run completes exactly when every checked file can be read. */
  lemma {:induction false} FixRunCompletesIff(items: seq<FileItem>, table: Table,
                                              readDecoded: String -> Option<String>)
    ensures FixRun(items, table, readDecoded).Completed? <==> AllReadable(items, readDecoded)
  {
    if items != [] {
      var n := |items| - 1;
      FixRunCompletesIff(items[..n], table, readDecoded);
      assert forall i :: 0 <= i < n ==> items[..n][i] == items[i];
    }
  }

  /** A completed run holds one repaired file per checked item, in list order, each named
      by `FixedFilePath`; unchecked items are skipped. */
  lemma {:induction false} FixRunCompletedFiles(items: seq<FileItem>, table: Table,
                                                readDecoded: String -> Option<String>)
    requires AllReadable(items, readDecoded)
    ensures forall i :: 0 <= i < |Selected(items)| ==> readDecoded(Selected(items)[i].path).Some?
    ensures FixRun(items, table, readDecoded) == Completed(Outputs(Selected(items), table, readDecoded))
  {
    forall x | x in Selected(items)
      ensures readDecoded(x.path).Some?
    {
      var i :| 0 <= i < |items| && items[i] == x;
    }
    if items != [] {
      var n := |items| - 1;
      assert forall i :: 0 <= i < n ==> items[..n][i] == items[i];
      FixRunCompletedFiles(items[..n], table, readDecoded);
      FixRunCompletesIff(items[..n], table, readDecoded);
    }
  }

  /** A run stops at the first checked file that cannot be read, keeping the files
      repaired before it. */
  lemma {:induction false} FixRunAbortsAtFirstFailure(items: seq<FileItem>, i: nat, table: Table,
                                                      readDecoded: String -> Option<String>)
    requires i < |items| && items[i].checked && readDecoded(items[i].path).None?
    requires AllReadable(items[..i], readDecoded)
    ensures forall j :: 0 <= j < |Selected(items[..i])| ==>
      readDecoded(Selected(items[..i])[j].path).Some?
    ensures FixRun(items, table, readDecoded)
      == Aborted(Outputs(Selected(items[..i]), table, readDecoded), items[i].path)
    decreases |items|
  {
    FixRunCompletedFiles(items[..i], table, readDecoded);
    var n := |items| - 1;
    if i < n {
      assert items[..n][..i] == items[..i];
      FixRunAbortsAtFirstFailure(items[..n], i, table, readDecoded);
    } else {
      assert items[..n] == items[..i];
    }
  }

  /** Once a prefix of the list has aborted, the rest of the list is never looked at. */
  lemma {:induction false} FixRunAbortIsFinal(items: seq<FileItem>, k: nat, table: Table,
                                              readDecoded: String -> Option<String>)
    requires k <= |items| && FixRun(items[..k], table, readDecoded).Aborted?
    ensures FixRun(items, table, readDecoded) == FixRun(items[..k], table, readDecoded)
    decreases |items|
  {
    if k < |items| {
      var n := |items| - 1;
      assert items[..n][..k] == items[..k];
      FixRunAbortIsFinal(items[..n], k, table, readDecoded);
    } else {
      assert items[..k] == items;
    }
  }

  /** Output names of a run over a valid list all end in "_tr.srt". */
  lemma {:induction false} FixRunOutputNames(items: seq<FileItem>, table: Table,
                                             readDecoded: String -> Option<String>)
    requires forall i :: 0 <= i < |items| ==> EndsWith(items[i].path, SrtSuffix)
    ensures forall f :: f in FixRun(items, table, readDecoded).files ==> EndsWith(f.0, FixedSuffix)
  {
    if items != [] {
      var n := |items| - 1;
      assert forall i :: 0 <= i < n ==> items[..n][i] == items[i];
      FixRunOutputNames(items[..n], table, readDecoded);
      FixedFilePathSuffix(items[n].path);
    }
  }

  class SubtitleFixer {
    var fileList: seq<FileItem>
    var fixedFiles: seq<FixedFile>
    var clearAllFilesEnabled: bool
    var saveEnabled: bool
    const subtitleProcessor: SubtitleProcessor

    /** The list rules hold, and "Clear all files" is enabled exactly when the list is
        not empty. */
    ghost predicate Valid()
      reads this
    {
      ValidList(fileList) && (clearAllFilesEnabled <==> fileList != [])
    }

    /** An empty window; the processor is the one built from the mapping source. */
    constructor (processor: SubtitleProcessor)
      ensures Valid()
      ensures fileList == [] && fixedFiles == []
      ensures !clearAllFilesEnabled && !saveEnabled
      ensures subtitleProcessor == processor
    {
      fileList := [];
      fixedFiles := [];
      clearAllFilesEnabled := false;
      saveEnabled := false;
      subtitleProcessor := processor;
    }

    /** Empties the list and disables "Clear all files". */
    method ClearAllFiles()
      modifies this
      ensures Valid()
      ensures fileList == [] && !clearAllFilesEnabled
      ensures fixedFiles == old(fixedFiles) && saveEnabled == old(saveEnabled)
    {
      fileList := [];
      clearAllFilesEnabled := false;
    }

    /** Adds a path, ticked, at the end of the list, unless it does not end in ".srt" or is
        already listed; then the list is left as it was and a dialog says why. */
    method AddFile(filePath: String) returns (status: AddStatus)
      requires Valid()
      modifies this
      ensures Valid()
      ensures fixedFiles == old(fixedFiles) && saveEnabled == old(saveEnabled)
      ensures !EndsWith(filePath, SrtSuffix) ==>
        status == NotSrt && fileList == old(fileList)
        && clearAllFilesEnabled == old(clearAllFilesEnabled)
      ensures EndsWith(filePath, SrtSuffix) && filePath in Paths(old(fileList)) ==>
        status == AlreadyAdded && fileList == old(fileList)
        && clearAllFilesEnabled == old(clearAllFilesEnabled)
      ensures EndsWith(filePath, SrtSuffix) && filePath !in Paths(old(fileList)) ==>
        status == Added && fileList == old(fileList) + [FileItem(filePath, true)]
        && clearAllFilesEnabled
    {
      if !EndsWith(filePath, SrtSuffix) {
        return NotSrt;
      }
      var existingItems: seq<String> := [];
      var i := 0;
      while i < |fileList|
        invariant 0 <= i <= |fileList|
        invariant |existingItems| == i
        invariant forall j :: 0 <= j < i ==> existingItems[j] == fileList[j].path
      {
        existingItems := existingItems + [fileList[i].path];
        i := i + 1;
      }
      assert existingItems == Paths(fileList);
      if filePath in existingItems {
        return AlreadyAdded;
      }
      fileList := fileList + [FileItem(filePath, true)];
      clearAllFilesEnabled := true;
      return Added;
    }

    /** Repairs the checked files in list order. With an empty list nothing changes.
        Otherwise the kept files are replaced by this run's, and the run stops at the first
        file that cannot be read; only a completed run with at least one file enables
        "Save file(s)", and nothing here disables it. */
    method FixFiles(readDecoded: String -> Option<String>)
      requires Valid()
      modifies this
      ensures Valid()
      ensures fileList == old(fileList) && clearAllFilesEnabled == old(clearAllFilesEnabled)
      ensures old(fileList) == [] ==>
        fixedFiles == old(fixedFiles) && saveEnabled == old(saveEnabled)
      ensures old(fileList) != [] ==>
        var run := FixRun(fileList, subtitleProcessor.mappings, readDecoded);
        && fixedFiles == run.files
        && saveEnabled == (old(saveEnabled) || (run.Completed? && run.files != []))
    {
      if |fileList| == 0 {
        return;
      }
      var table := subtitleProcessor.mappings;
      fixedFiles := [];
      var i := 0;
      while i < |fileList|
        invariant 0 <= i <= |fileList|
        invariant fileList == old(fileList) && clearAllFilesEnabled == old(clearAllFilesEnabled)
        invariant saveEnabled == old(saveEnabled)
        invariant FixRun(fileList[..i], table, readDecoded) == Completed(fixedFiles)
      {
        assert fileList[..i + 1][..i] == fileList[..i];
        var item := fileList[i];
        if item.checked {
          var filePath := item.path;
          var fixedContent := subtitleProcessor.FixCorruptedSrtFile(filePath, readDecoded);
          if fixedContent.None? {
            FixRunAbortIsFinal(fileList, i + 1, table, readDecoded);
            return;
          }
          var fixedFilePath := FixedFilePath(filePath);
          fixedFiles := fixedFiles + [(fixedFilePath, fixedContent.value)];
        }
        i := i + 1;
      }
      assert fileList[..i] == fileList;
      if fixedFiles != [] {
        saveEnabled := true;
      }
    }
  }
}
