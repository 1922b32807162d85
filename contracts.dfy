/**
 * The contracts the ARC domain model hands out and what applying a batch
 * of them does to the files under the ARC's root: DELETE removes a file,
 * CREATE and UPDATE write one (overwriting for the four ISA kinds,
 * create-exclusive for plain text), RENAME moves one. The batch is applied
 * in list order, and a write of a kind that cannot be resolved ends it.
 */
module Contracts {
  import opened Wrappers
  import opened Strings

  datatype Operation = Create | Update | Delete | Rename | OtherOperation(name: string)

  /** "ISA_Investigation", "ISA_Study", "ISA_Assay", "ISA_Datamap", "PlainText", or any other kind. */
  datatype DtoType = IsaInvestigation | IsaStudy | IsaAssay | IsaDatamap | PlainText | OtherDtoType(name: string)

  /**
   * A contract's payload: none, a text (the content of a plain-text file,
   * or the destination of a RENAME), or a spreadsheet workbook, which the
   * model does not look into.
   */
  datatype Dto = NoDto | TextDto(text: string) | Workbook(id: nat)

  datatype Contract = Contract(op: Operation, path: string, dtoType: DtoType, dto: Dto)

  /** A file: text, or the bytes a workbook serialises to. */
  datatype Content = Text(text: string) | Bytes(book: Dto)

  /** The files on disk, by absolute path. */
  type FileSystem = map<string, Content>

  /** A diagnostic on the console. */
  datatype Notice =
    | UnknownOperation(op: Operation)   // an operation the switch does not know
    | Unresolved(contract: Contract)    // a write of a kind that is neither ISA nor plain text
    | Rejected(path: string)            // the file service refused: an exclusive write onto a file, a move of no file

  /** The state after some contracts: the files, the notices so far, and whether the batch has ended. */
  datatype Outcome = Outcome(files: FileSystem, notices: seq<Notice>, halted: bool)

  /** `arc_root + '/' + relativePath`. */
  function AbsolutePath(root: string, relative: string): string
  {
    root + "/" + relative
  }

  /** The four kinds whose payload is serialised from a workbook and overwritten unconditionally. */
  predicate IsIsa(t: DtoType)
  {
    t.IsaInvestigation? || t.IsaStudy? || t.IsaAssay? || t.IsaDatamap?
  }

  predicate IsWrite(op: Operation)
  {
    op.Create? || op.Update?
  }

  /** A CREATE or UPDATE of a kind the switch cannot resolve: it ends the batch. */
  predicate Unresolvable(c: Contract)
  {
    IsWrite(c.op) && !IsIsa(c.dtoType) && !c.dtoType.PlainText?
  }

  /** `contract.DTO || ''` as the text of a plain-text file; a workbook is no text. */
  function PlainTextOf(dto: Dto): (r: Option<string>)
    ensures r.None? <==> dto.Workbook?
    ensures dto.NoDto? ==> r == Some("")
  {
    match dto
    case NoDto => Some("")
    case TextDto(s) => Some(s)
    case Workbook(_) => None
  }

  /**
   * `'/' + contract.DTO` as the destination of a RENAME. JavaScript turns
   * any payload into a string here: an absent one prints as "undefined"
   * and a workbook object as "[object Object]".
   */
  function RenameTarget(dto: Dto): (r: string)
    ensures dto.TextDto? ==> Some(r) == PlainTextOf(dto)
    ensures dto.NoDto? ==> r == "undefined" && Some(r) != PlainTextOf(dto)
    ensures dto.Workbook? ==> r == "[object Object]" && PlainTextOf(dto).None?
  {
    match dto
    case NoDto => "undefined"
    case TextDto(s) => s
    case Workbook(_) => "[object Object]"
  }

  /** The paths a contract may change. */
  function Targets(root: string, c: Contract): set<string>
  {
    var p := AbsolutePath(root, c.path);
    if c.op.OtherOperation? then {}
    else if c.op.Rename? then {p, AbsolutePath(root, RenameTarget(c.dto))}
    else {p}
  }

  /** `f` and `g` have the same files outside `except`. */
  ghost predicate Agrees(f: FileSystem, g: FileSystem, except: set<string>)
  {
    forall q | q !in except :: (q in f <==> q in g) && (q in f ==> f[q] == g[q])
  }

  /** One round of the switch of `handleARCContracts`. */
  function Apply(fs: FileSystem, root: string, c: Contract): (r: Outcome)
    ensures |r.notices| <= 1
    ensures r.halted <==> Unresolvable(c)
    ensures r.halted ==> r.files == fs
    ensures Agrees(fs, r.files, Targets(root, c))
  {
    var p := AbsolutePath(root, c.path);
    match c.op
    case Delete => Outcome(fs - {p}, [], false)
    case Create => Write(fs, p, c)
    case Update => Write(fs, p, c)
    case Rename =>
      var q := AbsolutePath(root, RenameTarget(c.dto));
      if p !in fs then Outcome(fs, [Rejected(p)], false)
      else if q == p then Outcome(fs, [], false)
      else Outcome((fs - {p})[q := fs[p]], [], false)
    case OtherOperation(_) => Outcome(fs, [UnknownOperation(c.op)], false)
  }

  /** The CREATE/UPDATE branch, writing to `p`. */
  function Write(fs: FileSystem, p: string, c: Contract): (r: Outcome)
    ensures |r.notices| <= 1
    ensures r.halted <==> !IsIsa(c.dtoType) && !c.dtoType.PlainText?
    ensures Agrees(fs, r.files, {p})
    ensures p in fs && !IsIsa(c.dtoType) ==> r.files == fs
  {
    if IsIsa(c.dtoType) then Outcome(fs[p := Bytes(c.dto)], [], false)
    else if c.dtoType.PlainText? then
      match PlainTextOf(c.dto)
      case None => Outcome(fs, [Rejected(p)], false)
      case Some(s) => if p in fs then Outcome(fs, [Rejected(p)], false) else Outcome(fs[p := Text(s)], [], false)
    else Outcome(fs, [Unresolved(c)], true)
  }

  /** Carrying on after `o` with the outcome `next` of one more contract. */
  function Then(o: Outcome, next: Outcome): Outcome
  {
    Outcome(next.files, o.notices + next.notices, next.halted)
  }

  /** The batch, applied strictly in list order, up to the first contract that ends it. */
  function Run(fs: FileSystem, root: string, cs: seq<Contract>): (r: Outcome)
    ensures r.halted <==> exists i | 0 <= i < |cs| :: Unresolvable(cs[i])
    ensures |r.notices| <= |cs|
  {
    if cs == [] then Outcome(fs, [], false)
    else
      assert forall i | 0 <= i < |cs| - 1 :: cs[..|cs| - 1][i] == cs[i];
      var o := Run(fs, root, cs[..|cs| - 1]);
      if o.halted then o else Then(o, Apply(o.files, root, cs[|cs| - 1]))
  }

  /** The paths a batch may change. */
  function BatchTargets(root: string, cs: seq<Contract>): set<string>
  {
    if cs == [] then {} else BatchTargets(root, cs[..|cs| - 1]) + Targets(root, cs[|cs| - 1])
  }

  // ---------------------------------------------------------------- one contract

  /** DELETE removes exactly its file, says nothing, and goes on, whether or not the file was there. */
  lemma DeleteRemoves(fs: FileSystem, root: string, c: Contract)
    requires c.op.Delete?
    ensures var r := Apply(fs, root, c);
      AbsolutePath(root, c.path) !in r.files && Agrees(fs, r.files, {AbsolutePath(root, c.path)})
      && r.notices == [] && !r.halted
  {
  }

  /** An ISA write puts the serialised workbook at its path, whatever was there, and nothing else changes. */
  lemma IsaOverwrites(fs: FileSystem, root: string, c: Contract)
    requires IsWrite(c.op) && IsIsa(c.dtoType)
    ensures var r := Apply(fs, root, c); var p := AbsolutePath(root, c.path);
      p in r.files && r.files[p] == Bytes(c.dto) && Agrees(fs, r.files, {p}) && r.notices == [] && !r.halted
  {
  }

  /**
   * A plain-text write never changes a file that exists: it is refused
   * with a notice and the batch goes on. A missing file is created with
   * the payload, or empty when there is none.
   */
  lemma ExclusiveWrite(fs: FileSystem, root: string, c: Contract)
    requires IsWrite(c.op) && c.dtoType.PlainText? && !c.dto.Workbook?
    ensures var r := Apply(fs, root, c); var p := AbsolutePath(root, c.path);
      !r.halted
      && (p in fs ==> r.files == fs && r.notices == [Rejected(p)])
      && (p !in fs ==> p in r.files && r.files[p] == Text(if c.dto.TextDto? then c.dto.text else "")
                       && Agrees(fs, r.files, {p}) && r.notices == [])
  {
  }

  /** The same plain-text contract twice: the second is refused and leaves the files as the first made them. */
  lemma ExclusiveTwice(fs: FileSystem, root: string, c: Contract)
    requires IsWrite(c.op) && c.dtoType.PlainText? && !c.dto.Workbook?
    ensures Run(fs, root, [c, c]).files == Run(fs, root, [c]).files
    ensures Run(fs, root, [c, c]).notices == Run(fs, root, [c]).notices + [Rejected(AbsolutePath(root, c.path))]
    ensures !Run(fs, root, [c, c]).halted
  {
    assert [c, c][..1] == [c];
    assert [c][..0] == [];
    ExclusiveWrite(fs, root, c);
    ExclusiveWrite(Apply(fs, root, c).files, root, c);
  }

  /** RENAME moves the content to the destination; the old path is gone and nothing else changes. */
  lemma RenameMoves(fs: FileSystem, root: string, c: Contract)
    requires c.op.Rename?
    requires AbsolutePath(root, c.path) in fs
    requires AbsolutePath(root, RenameTarget(c.dto)) != AbsolutePath(root, c.path)
    ensures var r := Apply(fs, root, c); var p := AbsolutePath(root, c.path);
      var q := AbsolutePath(root, RenameTarget(c.dto));
      q in r.files && r.files[q] == fs[p] && p !in r.files && Agrees(fs, r.files, {p, q})
      && r.notices == [] && !r.halted
  {
  }

  /** Moving a file that is not there is refused, and nothing changes. */
  lemma RenameMissing(fs: FileSystem, root: string, c: Contract)
    requires c.op.Rename? && AbsolutePath(root, c.path) !in fs
    ensures var r := Apply(fs, root, c);
      r.files == fs && r.notices == [Rejected(AbsolutePath(root, c.path))] && !r.halted
  {
  }

  /** An operation the switch does not know is logged, and the batch goes on. */
  lemma UnknownLogged(fs: FileSystem, root: string, c: Contract)
    requires c.op.OtherOperation?
    ensures Apply(fs, root, c) == Outcome(fs, [UnknownOperation(c.op)], false)
  {
  }

  // ---------------------------------------------------------------- the batch

  /** One more contract after a prefix that has not ended the batch. */
  lemma RunStep(fs: FileSystem, root: string, cs: seq<Contract>, i: nat)
    requires i < |cs| && !Run(fs, root, cs[..i]).halted
    ensures Run(fs, root, cs[..i + 1]) == Then(Run(fs, root, cs[..i]), Apply(Run(fs, root, cs[..i]).files, root, cs[i]))
  {
    assert cs[..i + 1][..i] == cs[..i];
  }

  /** Running `a + b` is running `a`, then, unless `a` ended the batch, running `b` on the files `a` left. */
  lemma {:induction false} RunConcat(fs: FileSystem, root: string, a: seq<Contract>, b: seq<Contract>)
    ensures var o := Run(fs, root, a);
      Run(fs, root, a + b) == if o.halted then o else Then(o, Run(o.files, root, b))
    decreases |b|
  {
    var o := Run(fs, root, a);
    if b == [] {
      assert a + b == a;
      assert o.notices + [] == o.notices;
    } else {
      var front, last := b[..|b| - 1], b[|b| - 1];
      RunConcat(fs, root, a, front);
      assert (a + b)[..|a + b| - 1] == a + front;
      assert (a + b)[|a + b| - 1] == last;
      if !o.halted {
        var m := Run(o.files, root, front);
        if !m.halted {
          Assoc(o.notices, m.notices, Apply(m.files, root, last).notices);
        }
      }
    }
  }

  /** Once the batch has ended, no later contract is applied. */
  lemma RunHalted(fs: FileSystem, root: string, a: seq<Contract>, b: seq<Contract>)
    requires Run(fs, root, a).halted
    ensures Run(fs, root, a + b) == Run(fs, root, a)
  {
    RunConcat(fs, root, a, b);
  }

  /**
   * An unresolvable write ends the batch where it stands: the contracts
   * before it have been applied, it changes nothing, and none after it is
   * applied.
   */
  lemma UnresolvedEndsBatch(fs: FileSystem, root: string, cs: seq<Contract>, i: nat)
    requires i < |cs| && Unresolvable(cs[i]) && !Run(fs, root, cs[..i]).halted
    ensures Run(fs, root, cs) == Run(fs, root, cs[..i + 1])
    ensures Run(fs, root, cs).halted && Run(fs, root, cs).files == Run(fs, root, cs[..i]).files
  {
    RunStep(fs, root, cs, i);
    RunHalted(fs, root, cs[..i + 1], cs[i + 1..]);
    assert cs[..i + 1] + cs[i + 1..] == cs;
  }

  lemma AgreesThen(f: FileSystem, g: FileSystem, h: FileSystem, a: set<string>, b: set<string>)
    requires Agrees(f, g, a) && Agrees(g, h, b)
    ensures Agrees(f, h, a + b)
  {
  }

  /** A batch changes no file outside the paths its contracts name. */
  lemma {:induction false} RunFrame(fs: FileSystem, root: string, cs: seq<Contract>)
    ensures Agrees(fs, Run(fs, root, cs).files, BatchTargets(root, cs))
  {
    if cs != [] {
      var front := cs[..|cs| - 1];
      RunFrame(fs, root, front);
      var o := Run(fs, root, front);
      if !o.halted {
        AgreesThen(fs, o.files, Apply(o.files, root, cs[|cs| - 1]).files,
          BatchTargets(root, front), Targets(root, cs[|cs| - 1]));
      }
    }
  }
}
