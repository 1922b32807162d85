/**
 * The parsers the Git view runs over the text Git prints: the NUL-separated
 * `git status -z -u`, the rebase banner of plain `git status`, the
 * `git lfs ls-files` listing, `git branch` and `git remote -v`. Each is
 * given with the layout Git prints, and the lemmas show that the parser
 * reads that layout back.
 */
module GitOutput {
  import opened Wrappers
  import opened Strings

  // ---------------------------------------------------------------- git status

  /** `status_raw[1].startsWith('interactive rebase in progress')`. */
  predicate RebaseInProgress(statusOut: string)
  {
    StartsWith(statusOut, "interactive rebase in progress")
  }

  /** One record of `git status -z -u`: the two-character code and the path. */
  datatype StatusRecord = StatusRecord(code: string, path: string)

  /**
   * `response[1].split('\u0000').map(x => [x.slice(0,2), x.slice(3)]).slice(0,-1)`:
   * every NUL-separated field but the last gives the code in its first two
   * characters and the path from its fourth character on.
   */
  function ParsePorcelain(out: string): (r: seq<StatusRecord>)
    ensures forall i | 0 <= i < |r| :: |r[i].code| <= 2
    ensures IndexOf(out, "\0") == -1 ==> r == []
  {
    var fields := Split(out, "\0");
    seq(|fields| - 1, i requires 0 <= i < |fields| - 1 => StatusRecord(Take(fields[i], 2), Drop(fields[i], 3)))
  }

  /** A record the way Git prints it: the code, a space, the path. */
  function Field(r: StatusRecord): string
  {
    r.code + " " + r.path
  }

  function Fields(rs: seq<StatusRecord>): seq<string>
  {
    seq(|rs|, i requires 0 <= i < |rs| => Field(rs[i]))
  }

  /** A record Git can print: a two-character code, and no NUL anywhere. */
  predicate WellFormed(r: StatusRecord)
  {
    |r.code| == 2 && IndexOf(Field(r), "\0") == -1
  }

  /**
   * The parser reads back every NUL-terminated "XY path" record, and drops
   * whatever unterminated text follows the last NUL.
   */
  lemma PorcelainRoundTrip(rs: seq<StatusRecord>, tail: string)
    requires forall i | 0 <= i < |rs| :: WellFormed(rs[i])
    requires IndexOf(tail, "\0") == -1
    ensures ParsePorcelain(Terminated(Fields(rs), "\0") + tail) == rs
  {
    UnborderedDelimiters();
    SplitTerminated(Fields(rs), "\0", tail);
    var fields := Fields(rs) + [tail];
    forall i | 0 <= i < |rs| ensures Take(fields[i], 2) == rs[i].code && Drop(fields[i], 3) == rs[i].path {
      assert fields[i] == rs[i].code + " " + rs[i].path;
      assert fields[i][..2] == rs[i].code;
    }
  }

  /** The first two characters and the text from the fourth on, of a record written as "XY path". */
  lemma FieldParts(r: StatusRecord)
    requires |r.code| == 2
    ensures Take(Field(r), 2) == r.code && Drop(Field(r), 3) == r.path
  {
    assert Field(r)[..2] == r.code;
  }

  // ---------------------------------------------------------------- renames and copies

  /** A rename or a copy: with `-z`, Git prints the original path as one more NUL-terminated field after the record. */
  predicate HasOrigin(code: string)
  {
    'R' in code || 'C' in code
  }

  /** A record the way `git status -z` prints it, with the original path of a rename or copy. */
  datatype Printed = Printed(rec: StatusRecord, origin: Option<string>)

  /** A printed record Git can produce: a well-formed record, and an original path, free of NULs, exactly for a rename or copy. */
  predicate PrintedWell(p: Printed)
  {
    && WellFormed(p.rec)
    && (p.origin.Some? <==> HasOrigin(p.rec.code))
    && (p.origin.Some? ==> IndexOf(p.origin.value, "\0") == -1)
  }

  /** The NUL-separated fields of printed records: each record, then its original path when it has one. */
  function PrintedFields(ps: seq<Printed>): seq<string>
  {
    if ps == [] then []
    else [Field(ps[0].rec)] + (if ps[0].origin.Some? then [ps[0].origin.value] else []) + PrintedFields(ps[1..])
  }

  /** The records of the printed records, without their original paths. */
  function Records(ps: seq<Printed>): seq<StatusRecord>
  {
    if ps == [] then [] else [ps[0].rec] + Records(ps[1..])
  }

  /**
   * As written, the parser takes the original-path field of a rename or
   * copy for a record of its own: one staged rename reads as two records,
   * the second with the first two characters of the old path as its code
   * and the old path from its fourth character on as its path.
   */
  lemma PorcelainSplitsRename(r: StatusRecord, origin: string, tail: string)
    requires WellFormed(r) && HasOrigin(r.code)
    requires IndexOf(origin, "\0") == -1 && IndexOf(tail, "\0") == -1
    ensures ParsePorcelain(Terminated([Field(r), origin], "\0") + tail)
      == [r, StatusRecord(Take(origin, 2), Drop(origin, 3))]
    ensures |ParsePorcelain(Terminated([Field(r), origin], "\0") + tail)| != |[r]|
  {
    UnborderedDelimiters();
    SplitTerminated([Field(r), origin], "\0", tail);
    FieldParts(r);
  }

  /** The fields read pairwise: a rename or copy record takes the next field, its original path, with it. */
  function ReadFields(fields: seq<string>): (r: seq<StatusRecord>)
    ensures |r| <= |fields|
    ensures fields != [] ==> |r| >= 1
  {
    if fields == [] then []
    else
      var r := StatusRecord(Take(fields[0], 2), Drop(fields[0], 3));
      if HasOrigin(r.code) && |fields| >= 2 then [r] + ReadFields(fields[2..])
      else [r] + ReadFields(fields[1..])
  }

  /** The porcelain parser with the original path of a rename or copy consumed along with its record. */
  function ParsePorcelainPairs(out: string): (r: seq<StatusRecord>)
    ensures |r| <= |ParsePorcelain(out)|
    ensures IndexOf(out, "\0") == -1 ==> r == []
  {
    var fields := Split(out, "\0");
    ReadFields(fields[..|fields| - 1])
  }

  lemma {:induction false} ReadPrinted(ps: seq<Printed>)
    requires forall i | 0 <= i < |ps| :: PrintedWell(ps[i])
    ensures ReadFields(PrintedFields(ps)) == Records(ps)
  {
    if ps != [] {
      var p := ps[0];
      var rest := PrintedFields(ps[1..]);
      assert PrintedWell(p);
      FieldParts(p.rec);
      ReadPrinted(ps[1..]);
      if p.origin.Some? {
        assert PrintedFields(ps) == [Field(p.rec), p.origin.value] + rest;
        assert PrintedFields(ps)[2..] == rest;
      } else {
        assert PrintedFields(ps) == [Field(p.rec)] + rest;
        assert PrintedFields(ps)[1..] == rest;
      }
    }
  }

  lemma {:induction false} PrintedFieldsFree(ps: seq<Printed>)
    requires forall i | 0 <= i < |ps| :: PrintedWell(ps[i])
    ensures forall j :: 0 <= j < |PrintedFields(ps)| ==> IndexOf(PrintedFields(ps)[j], "\0") == -1
  {
    if ps != [] {
      assert PrintedWell(ps[0]);
      PrintedFieldsFree(ps[1..]);
      var head := [Field(ps[0].rec)] + (if ps[0].origin.Some? then [ps[0].origin.value] else []);
      var fs := PrintedFields(ps);
      assert fs == head + PrintedFields(ps[1..]);
      forall j | 0 <= j < |fs| ensures IndexOf(fs[j], "\0") == -1 {
        if j >= |head| {
          assert fs[j] == PrintedFields(ps[1..])[j - |head|];
        }
      }
    }
  }

  /**
   * Reading the fields pairwise gives back exactly the records Git
   * printed, renames and copies included, one record each.
   */
  lemma PorcelainPairsRoundTrip(ps: seq<Printed>, tail: string)
    requires forall i | 0 <= i < |ps| :: PrintedWell(ps[i])
    requires IndexOf(tail, "\0") == -1
    ensures ParsePorcelainPairs(Terminated(PrintedFields(ps), "\0") + tail) == Records(ps)
  {
    UnborderedDelimiters();
    PrintedFieldsFree(ps);
    SplitTerminated(PrintedFields(ps), "\0", tail);
    var fields := PrintedFields(ps) + [tail];
    assert fields[..|fields| - 1] == PrintedFields(ps);
    ReadPrinted(ps);
  }

  // ---------------------------------------------------------------- git lfs ls-files

  /**
   * One line of `git lfs ls-files`, "<oid> <mark> <path>": the key is the
   * third space-separated field on, joined back with spaces; the value is
   * whether the second field is "*". A line with fewer fields gives the
   * empty key, and a missing second field compares unequal to "*".
   */
  function LfsLine(line: string): (r: (string, bool))
    ensures IndexOf(line, " ") == -1 ==> r == ("", false)
  {
    var e := Split(line, " ");
    (Join(if |e| >= 2 then e[2..] else [], " "), |e| >= 2 && e[1] == "*")
  }

  lemma FirstTwo<T>(a: T, b: T, c: seq<T>)
    ensures ([a] + ([b] + c))[1] == b && ([a] + ([b] + c))[2..] == c
  {
    assert [a] + ([b] + c) == [a, b] + c;
  }

  /** A listing line gives back its path, spaces and all, and whether its mark is "*". */
  lemma LfsLineFields(oid: string, mark: string, path: string)
    requires IndexOf(oid, " ") == -1 && IndexOf(mark, " ") == -1
    ensures LfsLine(oid + " " + mark + " " + path) == (path, mark == "*")
  {
    UnborderedDelimiters();
    var rest := mark + " " + path;
    var line := oid + " " + rest;
    Assoc(oid + " ", mark, " ");
    Assoc(oid + " ", mark + " ", path);
    SplitCons(mark, " ", path);
    SplitCons(oid, " ", rest);
    var e := Split(line, " ");
    FirstTwo(oid, mark, Split(path, " "));
    JoinSplit(path, " ");
  }

  /** The map `update_lfs_files` builds: one `set` per line, in order, so a later line wins. */
  function LfsMap(lines: seq<string>): (r: map<string, bool>)
    ensures forall i | 0 <= i < |lines| :: LfsLine(lines[i]).0 in r
  {
    if lines == [] then map[]
    else
      var entry := LfsLine(lines[|lines| - 1]);
      assert forall i | 0 <= i < |lines| - 1 :: lines[..|lines| - 1][i] == lines[i];
      LfsMap(lines[..|lines| - 1])[entry.0 := entry.1]
  }

  /** The keys of the map are exactly the keys of the lines. */
  lemma {:induction false} LfsMapKeys(lines: seq<string>, key: string)
    ensures key in LfsMap(lines) <==> exists i | 0 <= i < |lines| :: LfsLine(lines[i]).0 == key
  {
    if lines != [] {
      var front := lines[..|lines| - 1];
      LfsMapKeys(front, key);
      assert forall i | 0 <= i < |front| :: front[i] == lines[i];
    }
  }

  /** A key maps to the value of the last line that has it. */
  lemma {:induction false} LfsMapLastWins(lines: seq<string>, i: nat)
    requires i < |lines|
    requires forall j | i < j < |lines| :: LfsLine(lines[j]).0 != LfsLine(lines[i]).0
    ensures LfsLine(lines[i]).0 in LfsMap(lines)
    ensures LfsMap(lines)[LfsLine(lines[i]).0] == LfsLine(lines[i]).1
  {
    var front := lines[..|lines| - 1];
    if i < |lines| - 1 {
      assert forall j | i < j < |front| :: front[j] == lines[j];
      assert front[i] == lines[i];
      LfsMapLastWins(front, i);
    }
  }

  // ---------------------------------------------------------------- git branch and git remote -v

  /** `out.split('\n').slice(0, -1)`: the lines, without the piece after the last newline. */
  function Rows(out: string): (r: seq<string>)
    ensures forall j | 0 <= j < |r| :: IndexOf(r[j], "\n") == -1
    ensures IndexOf(out, "\n") == -1 ==> r == []
  {
    var ls := Split(out, "\n");
    ls[..|ls| - 1]
  }

  /** Newline-terminated lines come back as they were. */
  lemma RowsOfLines(lines: seq<string>, tail: string)
    requires forall j | 0 <= j < |lines| :: IndexOf(lines[j], "\n") == -1
    requires IndexOf(tail, "\n") == -1
    ensures Rows(Terminated(lines, "\n") + tail) == lines
  {
    UnborderedDelimiters();
    SplitTerminated(lines, "\n", tail);
  }

  /** The branch list and the name of the checked-out branch, if any. */
  datatype Branches = Branches(list: seq<string>, current: Option<string>)

  /** `branch[0] === '*'`: an empty row has no first character and is not marked. */
  predicate Starred(row: string)
  {
    |row| > 0 && row[0] == '*'
  }

  /** The name of the last starred row, the marker and the space after it cut off. */
  function CurrentOf(rows: seq<string>): (r: Option<string>)
    ensures r.None? <==> forall i | 0 <= i < |rows| :: !Starred(rows[i])
    ensures r.Some? ==> exists i | 0 <= i < |rows| :: Starred(rows[i]) && r.value == Drop(rows[i], 2)
  {
    if rows == [] then None
    else if Starred(rows[|rows| - 1]) then Some(Drop(rows[|rows| - 1], 2))
    else
      assert forall i | 0 <= i < |rows| - 1 :: rows[..|rows| - 1][i] == rows[i];
      CurrentOf(rows[..|rows| - 1])
  }

  /** What `get_branches` makes of the rows: every row without its first two characters, and the current branch. */
  function BranchesOf(rows: seq<string>): (r: Branches)
    ensures |r.list| == |rows|
    ensures r.current.Some? ==> r.current.value in r.list
    ensures r.current.None? <==> forall i | 0 <= i < |rows| :: !Starred(rows[i])
  {
    var list := seq(|rows|, i requires 0 <= i < |rows| => Drop(rows[i], 2));
    var current := CurrentOf(rows);
    if current.None? then Branches(list, current)
    else
      var i :| 0 <= i < |rows| && Starred(rows[i]) && current.value == Drop(rows[i], 2);
      assert list[i] == current.value;
      Branches(list, current)
  }

  /** A branch line the way `git branch` prints it: "* " before the checked-out branch, two spaces before the others. */
  function BranchLine(name: string, checkedOut: bool): string
  {
    (if checkedOut then "* " else "  ") + name
  }

  function BranchLines(names: seq<string>, current: int): seq<string>
  {
    seq(|names|, i requires 0 <= i < |names| => BranchLine(names[i], i == current))
  }

  /** The current branch is the one on the only starred row. */
  lemma {:induction false} CurrentOfOnly(rows: seq<string>, c: int)
    requires forall i | 0 <= i < |rows| :: Starred(rows[i]) <==> i == c
    ensures CurrentOf(rows) == if 0 <= c < |rows| then Some(Drop(rows[c], 2)) else None
  {
    if rows != [] {
      var front := rows[..|rows| - 1];
      assert forall i | 0 <= i < |front| :: front[i] == rows[i];
      CurrentOfOnly(front, c);
    }
  }

  /**
   * `get_branches` reads back what `git branch` prints: the branch names
   * in order, and the checked-out one as current (none when no line is
   * starred).
   */
  lemma BranchesRoundTrip(names: seq<string>, current: int)
    requires forall i | 0 <= i < |names| :: IndexOf(names[i], "\n") == -1
    ensures BranchesOf(Rows(Terminated(BranchLines(names, current), "\n"))) ==
      Branches(names, if 0 <= current < |names| then Some(names[current]) else None)
  {
    var rows := BranchLines(names, current);
    BranchLinesOneLine(names, current);
    RowsOfLines(rows, "");
    NoTail(Terminated(rows, "\n"));
    BranchesOfLines(names, current);
  }

  /** No branch line holds a newline. */
  lemma BranchLinesOneLine(names: seq<string>, current: int)
    requires forall i | 0 <= i < |names| :: IndexOf(names[i], "\n") == -1
    ensures forall j | 0 <= j < |BranchLines(names, current)| :: IndexOf(BranchLines(names, current)[j], "\n") == -1
  {
    var rows := BranchLines(names, current);
    forall j | 0 <= j < |rows| ensures IndexOf(rows[j], "\n") == -1 {
      var p: string := if j == current then "* " else "  ";
      NoCharIndex(p, '\n');
      NoNewlineConcat(p, names[j]);
    }
  }

  /** The rows of the branch lines give back the names and the checked-out one. */
  lemma BranchesOfLines(names: seq<string>, current: int)
    ensures BranchesOf(BranchLines(names, current)) ==
      Branches(names, if 0 <= current < |names| then Some(names[current]) else None)
  {
    var rows := BranchLines(names, current);
    forall i | 0 <= i < |rows| ensures Drop(rows[i], 2) == names[i] && (Starred(rows[i]) <==> i == current) {
      assert rows[i][2..] == names[i];
    }
    CurrentOfOnly(rows, current);
    var dropped := seq(|rows|, i requires 0 <= i < |rows| => Drop(rows[i], 2));
    assert dropped == names;
  }

  /** Two pieces with no newline in them put together have none either. */
  lemma NoNewlineConcat(a: string, b: string)
    requires IndexOf(a, "\n") == -1 && IndexOf(b, "\n") == -1
    ensures IndexOf(a + b, "\n") == -1
  {
    var s := a + b;
    forall j | 0 <= j ensures !OccursAt(s, "\n", j) {
      OneCharAt(s, '\n', j);
      if j < |a| {
        assert s[j] == a[j];
        OneCharAt(a, '\n', j);
      } else if j < |s| {
        assert s[j] == b[j - |a|];
        OneCharAt(b, '\n', j - |a|);
      }
    }
  }

  /** A remote: its url and whether it is behind; `get_remotes` leaves every remote not dirty. */
  datatype Remote = Remote(url: string, dirty: bool)

  /**
   * One row of `git remote -v`, "<name>\t<url> (fetch)": the name is the
   * text before the first tab, the url the text after it up to the first
   * space. A row without a tab has no second field, and reading one throws.
   */
  function RemoteRow(row: string): (r: Option<(string, string)>)
    ensures r.None? <==> IndexOf(row, "\t") == -1
    ensures r.Some? ==> IndexOf(r.value.0, "\t") == -1 && IndexOf(r.value.1, " ") == -1
  {
    var parts := Split(row, "\t");
    if |parts| < 2 then None else Some((parts[0], Split(parts[1], " ")[0]))
  }

  /** A row as `git remote -v` prints it gives back its name and url. */
  lemma RemoteRowFields(name: string, url: string, rest: string)
    requires IndexOf(name, "\t") == -1 && IndexOf(url, "\t") == -1 && IndexOf(url, " ") == -1
    requires IndexOf(rest, "\t") == -1 && IndexOf(rest, " ") == -1
    ensures RemoteRow(name + "\t" + url + " " + rest) == Some((name, url))
  {
    UnborderedDelimiters();
    var after := url + " " + rest;
    assert name + "\t" + url + " " + rest == name + "\t" + after;
    SplitCons(name, "\t", after);
    NoTabAround(url, rest);
    SplitCons(url, " ", rest);
  }

  /** Putting a space between two tab-free pieces makes no tab. */
  lemma NoTabAround(a: string, b: string)
    requires IndexOf(a, "\t") == -1 && IndexOf(b, "\t") == -1
    ensures IndexOf(a + " " + b, "\t") == -1
  {
    var ab := a + " ";
    var s := ab + b;
    forall j | 0 <= j ensures !OccursAt(s, "\t", j) {
      OneCharAt(s, '\t', j);
      if j < |a| {
        assert s[j] == a[j];
        OneCharAt(a, '\t', j);
      } else if j > |a| && j < |s| {
        assert s[j] == b[j - |ab|];
        OneCharAt(b, '\t', j - |ab|);
      }
    }
  }

  /**
   * What `get_remotes` leaves behind after the rows: the remotes read so
   * far, and whether every row could be read. At the first row without a
   * tab the loop throws, and the remotes read before it stay.
   */
  function RemotesOf(rows: seq<string>): (r: (map<string, Remote>, bool))
    ensures forall n | n in r.0 :: !r.0[n].dirty
    ensures |r.0| <= |rows|
  {
    if rows == [] then (map[], true)
    else
      var before := RemotesOf(rows[..|rows| - 1]);
      if !before.1 then before
      else match RemoteRow(rows[|rows| - 1])
        case None => (before.0, false)
        case Some(r) => (before.0[r.0 := Remote(r.1, false)], true)
  }

  /** The rows are all read exactly when every row has a tab. */
  lemma {:induction false} RemotesOk(rows: seq<string>)
    ensures RemotesOf(rows).1 <==> forall i | 0 <= i < |rows| :: RemoteRow(rows[i]).Some?
  {
    if rows != [] {
      var front := rows[..|rows| - 1];
      assert forall i | 0 <= i < |front| :: front[i] == rows[i];
      RemotesOk(front);
    }
  }

  /** `row` reads as a remote called `name`. */
  predicate NamedRow(row: string, name: string)
  {
    RemoteRow(row).Some? && RemoteRow(row).value.0 == name
  }

  /** Some row of `rows` reads as a remote called `name`. */
  predicate Names(rows: seq<string>, name: string)
  {
    exists i | 0 <= i < |rows| :: NamedRow(rows[i], name)
  }

  lemma NamesSnoc(rows: seq<string>, name: string)
    requires rows != []
    ensures Names(rows, name) <==> Names(rows[..|rows| - 1], name) || NamedRow(rows[|rows| - 1], name)
  {
    var front := rows[..|rows| - 1];
    if Names(front, name) {
      var i :| 0 <= i < |front| && NamedRow(front[i], name);
      assert rows[i] == front[i];
    }
    if Names(rows, name) {
      var i :| 0 <= i < |rows| && NamedRow(rows[i], name);
      if i < |front| {
        assert rows[i] == front[i];
      }
    }
  }

  /** When all rows are read, the remotes are exactly the names of the rows, none of them dirty. */
  lemma {:induction false} RemotesNames(rows: seq<string>, name: string)
    requires RemotesOf(rows).1
    ensures name in RemotesOf(rows).0 <==> Names(rows, name)
    ensures name in RemotesOf(rows).0 ==> !RemotesOf(rows).0[name].dirty
  {
    if rows != [] {
      RemotesNames(rows[..|rows| - 1], name);
      NamesSnoc(rows, name);
    }
  }

  /** Once a row fails, later rows are not read. */
  lemma {:induction false} RemotesStop(rows: seq<string>, i: nat)
    requires i <= |rows| && !RemotesOf(rows[..i]).1
    ensures RemotesOf(rows) == RemotesOf(rows[..i])
    decreases |rows| - i
  {
    if i < |rows| {
      assert rows[..i + 1][..i] == rows[..i];
      RemotesStop(rows, i + 1);
    } else {
      assert rows[..i] == rows;
    }
  }
}
