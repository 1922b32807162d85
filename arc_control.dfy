/**
 * The service that keeps an ARC on disk in step with its domain model:
 * applying contract batches, saving, toggling a path in the ARC's
 * `.gitignore`, and deciding which file-watcher events ask for a reload.
 * The file service, Git and the domain model are outside; the files are a
 * map, the Git commands a log, and the contracts the domain model would
 * generate are parameters.
 */
module ArcControl {
  import opened Wrappers
  import opened Strings
  import opened Contracts

  /** The ARC domain model object; what it holds is not modelled. */
  datatype Arc = Arc(id: nat)

  /** One `GitService.run` call: its arguments and its working directory. */
  datatype GitCall = GitCall(args: seq<string>, cwd: Option<string>)

  /** `given || fallback` for an ARC. */
  function PickArc(given: Option<Arc>, fallback: Option<Arc>): (r: Option<Arc>)
    ensures r.Some? <==> given.Some? || fallback.Some?
    ensures given.Some? ==> r == given
    ensures given.None? ==> r == fallback
  {
    if given.Some? then given else fallback
  }

  /** `given || fallback` for a root path, where the empty string counts as absent; the result is never "". */
  function PickRoot(given: Option<string>, fallback: Option<string>): (r: Option<string>)
    ensures r.Some? ==> r.value != "" && (r == given || r == fallback)
    ensures r.None? <==> (given.None? || given.value == "") && (fallback.None? || fallback.value == "")
    ensures given.Some? && given.value != "" ==> r == given
    ensures !(given.Some? && given.value != "") ==> r == (if fallback.Some? && fallback.value != "" then fallback else None)
  {
    if given.Some? && given.value != "" then given
    else if fallback.Some? && fallback.value != "" then fallback
    else None
  }

  /** `ArcControlService.props.arc_root` inside a string: an unset root prints as "undefined". */
  function RootText(root: Option<string>): string
  {
    if root.Some? then root.value else "undefined"
  }

  // ---------------------------------------------------------------- .gitignore lines

  /** `'\r\n'` when the text has one anywhere, `'\n'` otherwise. */
  function LineDelimiter(text: string): (d: string)
    ensures d == "\r\n" <==> Contains(text, "\r\n")
    ensures d == "\r\n" || d == "\n"
  {
    if IndexOf(text, "\r\n") < 0 then "\n" else "\r\n"
  }

  /** The entry appended when no line is the entry, else the first line that is the entry removed. */
  function ToggledLines(lines: seq<string>, entry: string): (r: seq<string>)
    ensures entry !in lines ==> multiset(r) == multiset(lines) + multiset{entry}
    ensures entry in lines ==> multiset(r) + multiset{entry} == multiset(lines)
  {
    var i := Find(lines, entry);
    if i < 0 then lines + [entry]
    else
      assert lines == lines[..i] + [lines[i]] + lines[i + 1..];
      lines[..i] + lines[i + 1..]
  }

  /** The Git commands for the entry: unstage and untrack it when it becomes ignored, stage it again when it no longer is. */
  function IgnoreCommands(lines: seq<string>, entry: string, cwd: Option<string>): (r: seq<GitCall>)
    ensures forall k | 0 <= k < |r| :: r[k].cwd == cwd && |r[k].args| >= 1 && r[k].args[|r[k].args| - 1] == "." + entry
    ensures |r| == 1 && r[0].args[0] == "add" <==> entry in lines
  {
    if Find(lines, entry) < 0 then
      [GitCall(["reset", "." + entry], cwd), GitCall(["rm", "--cached", "." + entry], cwd)]
    else [GitCall(["add", "." + entry], cwd)]
  }

  /**
   * The text written back: the toggled lines joined with the delimiter the
   * old text used. A new entry is appended as one more line, with the
   * file's own line ending, and the rest of the text is kept as it was.
   */
  function ToggledText(text: string, entry: string): (r: string)
    ensures entry !in Split(text, LineDelimiter(text)) ==> r == text + LineDelimiter(text) + entry
  {
    var d := LineDelimiter(text);
    var lines := Split(text, d);
    JoinSnoc(lines, entry, d);
    JoinSplit(text, d);
    Join(ToggledLines(lines, entry), d)
  }

  /** A `.gitignore` with CRLF line endings gets the new entry on a CRLF-ended line, not an LF-ended one. */
  lemma CrlfKept(text: string, entry: string)
    requires Contains(text, "\r\n") && entry !in Split(text, "\r\n")
    ensures ToggledText(text, entry) == text + "\r\n" + entry
  {
  }

  /**
   * A listed entry loses its first line and only that one: that line is
   * spliced out, and the lines before and after it stay in order.
   */
  lemma ToggleRemovesFirst(lines: seq<string>, entry: string)
    requires entry in lines
    ensures var r := ToggledLines(lines, entry);
      exists i | 0 <= i < |lines| :: lines[i] == entry && entry !in lines[..i] && r == lines[..i] + lines[i + 1..]
  {
    var i := Find(lines, entry);
    var r := ToggledLines(lines, entry);
    assert lines[i] == entry && entry !in lines[..i] && r == lines[..i] + lines[i + 1..];
  }

  /** Toggling an entry that is not listed, then toggling it again, gives back the lines. */
  lemma ToggleTwice(lines: seq<string>, entry: string)
    requires entry !in lines
    ensures ToggledLines(ToggledLines(lines, entry), entry) == lines
  {
    var once := lines + [entry];
    assert entry !in once[..|lines|] by {
      assert once[..|lines|] == lines;
    }
    assert Find(once, entry) == |lines|;
    assert once[..|lines|] == lines;
    assert once[|lines| + 1..] == [];
  }

  /**
   * The file written back splits into the toggled lines again with the same
   * delimiter, as long as the entry holds no line break and the file is not
   * left without lines.
   */
  lemma WrittenParsesBack(text: string, entry: string)
    requires IndexOf(entry, LineDelimiter(text)) == -1
    requires ToggledLines(Split(text, LineDelimiter(text)), entry) != []
    ensures var d := LineDelimiter(text);
      Split(ToggledText(text, entry), d) == ToggledLines(Split(text, d), entry)
  {
    var d := LineDelimiter(text);
    ToggledLinesFree(Split(text, d), entry, d);
    UnborderedDelimiters();
    SplitJoin(ToggledLines(Split(text, d), entry), d);
  }

  /** Toggling keeps every line free of the delimiter when the entry is. */
  lemma ToggledLinesFree(lines: seq<string>, entry: string, d: string)
    requires forall j | 0 <= j < |lines| :: IndexOf(lines[j], d) == -1
    requires IndexOf(entry, d) == -1
    ensures forall j | 0 <= j < |ToggledLines(lines, entry)| :: IndexOf(ToggledLines(lines, entry)[j], d) == -1
  {
    var i := Find(lines, entry);
    var r := ToggledLines(lines, entry);
    if i < 0 {
      assert r == lines + [entry];
      FreeAppend(lines, entry, d);
    } else {
      assert r == lines[..i] + lines[i + 1..];
      FreeSplice(lines, i, d, r);
    }
  }

  lemma FreeAppend(lines: seq<string>, x: string, d: string)
    requires forall j | 0 <= j < |lines| :: IndexOf(lines[j], d) == -1
    requires IndexOf(x, d) == -1
    ensures forall j | 0 <= j < |lines + [x]| :: IndexOf((lines + [x])[j], d) == -1
  {
    var r := lines + [x];
    forall j | 0 <= j < |r| ensures IndexOf(r[j], d) == -1 {
      if j < |lines| {
        assert r[j] == lines[j];
      } else {
        assert r[j] == x;
      }
    }
  }

  lemma FreeSplice(lines: seq<string>, i: nat, d: string, r: seq<string>)
    requires i < |lines| && r == lines[..i] + lines[i + 1..]
    requires forall j | 0 <= j < |lines| :: IndexOf(lines[j], d) == -1
    ensures forall j | 0 <= j < |r| :: IndexOf(r[j], d) == -1
  {
    forall j | 0 <= j < |r| ensures IndexOf(r[j], d) == -1 {
      if j < i {
        assert r[j] == lines[j];
      } else {
        assert r[j] == lines[j + 1];
      }
    }
  }

  /** The `.gitignore` at `p` can be read as text. */
  predicate Readable(fs: FileSystem, p: string)
  {
    p in fs && fs[p].Text?
  }

  /** The files after the `.gitignore` at `p` is toggled, when it can be read. */
  function ToggledFiles(fs: FileSystem, p: string, entry: string): FileSystem
  {
    if Readable(fs, p) then fs[p := Text(ToggledText(fs[p].text, entry))] else fs
  }

  /** The Git commands the toggle of the `.gitignore` at `p` issues. */
  function ToggleCalls(fs: FileSystem, p: string, entry: string, cwd: Option<string>): seq<GitCall>
  {
    if Readable(fs, p) then IgnoreCommands(Split(fs[p].text, LineDelimiter(fs[p].text)), entry, cwd) else []
  }

  /**
   * The save `updateGitIgnore` makes when the `.gitignore` is missing adds
   * no contract for it, so unless one of the update contracts names it the
   * file is still missing afterwards: nothing is toggled, no Git command is
   * issued.
   */
  lemma IgnoreStaysMissing(fs: FileSystem, root: string, cs: seq<Contract>, entry: string)
    requires AbsolutePath(root, ".gitignore") !in fs
    requires AbsolutePath(root, ".gitignore") !in BatchTargets(root, cs)
    ensures var after := Run(fs, root, cs).files; var p := AbsolutePath(root, ".gitignore");
      && p !in after
      && ToggledFiles(after, p, entry) == after
      && ToggleCalls(after, p, entry, Some(root)) == []
  {
    RunFrame(fs, root, cs);
  }

  // ---------------------------------------------------------------- file-watcher events

  /** `path.includes('isa.assay.xlsx') || path.includes('isa.study.xlsx')`. */
  predicate RequiresReload(path: string)
  {
    Contains(path, "isa.assay.xlsx") || Contains(path, "isa.study.xlsx")
  }

  lemma ContainsInfix(a: string, t: string, b: string)
    ensures Contains(a + t + b, t)
  {
    Pieces(a + t + b, |a|, |a| + |t|);
    assert (a + t + b)[|a|..|a| + |t|] == t;
    assert OccursAt(a + t + b, t, |a|);
  }

  /** An event on any assay or study workbook asks for a reload, wherever it lies. */
  lemma WorkbookEventsReload(a: string, b: string)
    ensures RequiresReload(a + "isa.assay.xlsx" + b) && RequiresReload(a + "isa.study.xlsx" + b)
  {
    ContainsInfix(a, "isa.assay.xlsx", b);
    ContainsInfix(a, "isa.study.xlsx", b);
  }

  // ---------------------------------------------------------------- the service

  class ArcControlService {
    var arcRoot: Option<string>
    var busy: bool
    var arc: Option<Arc>
    var gitInitialized: bool
    var skipFsUpdates: bool
    /** The files the file service holds. */
    var files: FileSystem
    /** The diagnostics logged so far. */
    var notices: seq<Notice>
    /** The Git commands issued so far. */
    var commands: seq<GitCall>
    /** The ARCs told to `UpdateFileSystem`, in order. */
    var refreshed: seq<Arc>
    /** `AppProperties.force_commit_update`. */
    var forceCommitUpdate: int
    /** The reloads handed to the debouncer. */
    var reloads: nat

    /** The initial `props`, over the files on disk. */
    constructor(disk: FileSystem)
      ensures arcRoot == None && !busy && arc == None && !gitInitialized && !skipFsUpdates
      ensures files == disk && notices == [] && commands == [] && refreshed == [] && forceCommitUpdate == 0 && reloads == 0
    {
      arcRoot := None;
      busy := false;
      arc := None;
      gitInitialized := false;
      skipFsUpdates := false;
      files := disk;
      notices := [];
      commands := [];
      refreshed := [];
      forceCommitUpdate := 0;
      reloads := 0;
    }

    /** One round of the switch: the file service's calls on `files`, the diagnostics on `notices`. */
    method ApplyContract(root: string, c: Contract) returns (halt: bool)
      modifies this`files, this`notices
      ensures var r := Apply(old(files), root, c);
        files == r.files && notices == old(notices) + r.notices && halt == r.halted
    {
      var p := AbsolutePath(root, c.path);
      halt := false;
      match c.op {
        case Delete =>
          files := files - {p};
        case Create =>
          halt := WriteContract(p, c);
        case Update =>
          halt := WriteContract(p, c);
        case Rename =>
          var q := AbsolutePath(root, RenameTarget(c.dto));
          if p !in files {
            notices := notices + [Rejected(p)];
          } else if q != p {
            files := (files - {p})[q := files[p]];
          }
        case OtherOperation(_) =>
          notices := notices + [UnknownOperation(c.op)];
      }
    }

    method WriteContract(p: string, c: Contract) returns (halt: bool)
      modifies this`files, this`notices
      ensures var r := Write(old(files), p, c);
        files == r.files && notices == old(notices) + r.notices && halt == r.halted
    {
      halt := false;
      if IsIsa(c.dtoType) {
        files := files[p := Bytes(c.dto)];
      } else if c.dtoType.PlainText? {
        var s := PlainTextOf(c.dto);
        if s.None? || p in files {
          notices := notices + [Rejected(p)];
        } else {
          files := files[p := Text(s.value)];
        }
      } else {
        notices := notices + [Unresolved(c)];
        halt := true;
      }
    }

    /**
     * `handleARCContracts`: without an ARC or a root nothing happens;
     * otherwise the ARC is told to update, the service is busy, and the
     * batch is applied in order up to the first contract that ends it.
     */
    method HandleArcContracts(contracts: seq<Contract>, given: Option<Arc>, givenRoot: Option<string>)
      modifies this`busy, this`files, this`notices, this`refreshed
      ensures var a := PickArc(given, arc); var r := PickRoot(givenRoot, arcRoot);
        if a.None? || r.None? then
          busy == old(busy) && files == old(files) && notices == old(notices) && refreshed == old(refreshed)
        else
          busy && refreshed == old(refreshed) + [a.value]
          && files == Run(old(files), r.value, contracts).files
          && notices == old(notices) + Run(old(files), r.value, contracts).notices
    {
      var a := PickArc(given, arc);
      var r := PickRoot(givenRoot, arcRoot);
      if a.None? || r.None? {
        return;
      }
      var root := r.value;
      busy := true;
      refreshed := refreshed + [a.value];
      ghost var fs0, ns0 := files, notices;
      for i := 0 to |contracts|
        invariant busy && refreshed == old(refreshed) + [a.value]
        invariant !Run(fs0, root, contracts[..i]).halted
        invariant files == Run(fs0, root, contracts[..i]).files
        invariant notices == ns0 + Run(fs0, root, contracts[..i]).notices
      {
        ghost var before := Run(fs0, root, contracts[..i]);
        ghost var ns := notices;
        var halt := ApplyContract(root, contracts[i]);
        RunStep(fs0, root, contracts, i);
        Assoc(ns0, before.notices, Apply(before.files, root, contracts[i]).notices);
        if halt {
          UnresolvedEndsBatch(fs0, root, contracts, i);
          return;
        }
      }
      assert contracts[..|contracts|] == contracts;
    }

    /**
     * `saveARC`: without an ARC or a root nothing happens; otherwise the
     * write contracts (forced) or the update contracts are applied, the
     * ARC having been told to update once here and once more by the batch,
     * and the service is no longer busy. The default `.gitignore` push
     * adds no contract.
     */
    method SaveArc(given: Option<Arc>, givenRoot: Option<string>, force: bool,
                   writeContracts: seq<Contract>, updateContracts: seq<Contract>)
      modifies this`busy, this`files, this`notices, this`refreshed
      ensures var a := PickArc(given, arc); var r := PickRoot(givenRoot, arcRoot);
        var cs := if force then writeContracts else updateContracts;
        if a.None? || r.None? then
          busy == old(busy) && files == old(files) && notices == old(notices) && refreshed == old(refreshed)
        else
          !busy && refreshed == old(refreshed) + [a.value, a.value]
          && files == Run(old(files), r.value, cs).files
          && notices == old(notices) + Run(old(files), r.value, cs).notices
    {
      var a := PickArc(given, arc);
      if a.None? {
        return;
      }
      var r := PickRoot(givenRoot, arcRoot);
      if r.None? {
        return;
      }
      busy := true;
      refreshed := refreshed + [a.value];
      var contracts := if force then writeContracts else updateContracts;
      var ignoreExists := AbsolutePath(r.value, ".gitignore") in files;
      if !ignoreExists {
        NoTail(contracts);
        contracts := contracts + [];
      }
      HandleArcContracts(contracts, a, r);
      busy := false;
    }

    /**
     * `updateGitIgnore`: the entry is the path with the root cut out.
     * Without a `.gitignore`, the ARC is saved first; the `.gitignore` is
     * then toggled as `ToggleIgnoreFile` says.
     */
    method UpdateGitIgnore(path: string, updateContracts: seq<Contract>)
      modifies this`busy, this`files, this`notices, this`refreshed, this`commands, this`forceCommitUpdate
      ensures var p := AbsolutePath(RootText(arcRoot), ".gitignore");
        var entry := RemoveFirst(path, RootText(arcRoot));
        var saves := p !in old(files) && arc.Some? && PickRoot(None, arcRoot).Some?;
        var fs1 := if saves then Run(old(files), arcRoot.value, updateContracts).files else old(files);
        && notices == old(notices) + (if saves then Run(old(files), arcRoot.value, updateContracts).notices else [])
        && refreshed == old(refreshed) + (if saves then [arc.value, arc.value] else [])
        && busy == (if saves then false else old(busy))
        && files == ToggledFiles(fs1, p, entry)
        && commands == old(commands) + ToggleCalls(fs1, p, entry, arcRoot)
        && forceCommitUpdate == old(forceCommitUpdate) + (if Readable(fs1, p) then 1 else 0)
    {
      var root := RootText(arcRoot);
      var entry := RemoveFirst(path, root);
      var p := AbsolutePath(root, ".gitignore");
      if p !in files {
        SaveArc(None, None, false, [], updateContracts);
      }
      ToggleIgnoreFile(p, entry);
    }

    /**
     * The rest of `updateGitIgnore`, on the `.gitignore` at `p`: one that
     * is missing, or holds no text, ends the call. Otherwise the entry is
     * toggled in its lines, the Git commands for it are issued, the file is
     * written back with its own line ending, and the commit view is told
     * to refresh.
     */
    method ToggleIgnoreFile(p: string, entry: string)
      modifies this`files, this`commands, this`forceCommitUpdate
      ensures files == ToggledFiles(old(files), p, entry)
      ensures commands == old(commands) + ToggleCalls(old(files), p, entry, arcRoot)
      ensures forceCommitUpdate == old(forceCommitUpdate) + (if Readable(old(files), p) then 1 else 0)
    {
      if p !in files || !files[p].Text? {
        assert commands + [] == commands;
        return;
      }
      var text := files[p].text;
      var d := LineDelimiter(text);
      var lines := Split(text, d);
      ghost var read := lines;
      var i := Find(lines, entry);
      if i < 0 {
        lines := lines + [entry];
        commands := commands + [GitCall(["reset", "." + entry], arcRoot)];
        commands := commands + [GitCall(["rm", "--cached", "." + entry], arcRoot)];
      } else {
        lines := lines[..i] + lines[i + 1..];
        commands := commands + [GitCall(["add", "." + entry], arcRoot)];
      }
      assert lines == ToggledLines(read, entry);
      files := files[p := Text(Join(lines, d))];
      forceCommitUpdate := forceCommitUpdate + 1;
    }

    /** `updateARCfromFS`: a reload goes to the debouncer unless updates are skipped or the path is no assay or study workbook. */
    method UpdateArcFromFs(path: string)
      modifies this`reloads
      ensures reloads == old(reloads) + if !skipFsUpdates && RequiresReload(path) then 1 else 0
    {
      if skipFsUpdates {
        return;
      }
      var requiresUpdate := Contains(path, "isa.assay.xlsx") || Contains(path, "isa.study.xlsx");
      if !requiresUpdate {
        return;
      }
      reloads := reloads + 1;
    }
  }
}
