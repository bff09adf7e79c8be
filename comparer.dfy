/** The Comparer of convert.py: it reads a reference daily file and a
    projected daily file in lockstep and keeps, per date, the offset
    projected - reference at the configured station's column.

    A file is the sequence of its lines without terminators, and a read
    position is an index into it; reading past the end gives "", as
    readline() does at end of file.
 */
module Comparer {
  import opened Common
  import opened Text
  import opened Numbers

  /** The first token of every metadata row of a daily file. */
  const Sentinel: string := "00000000"

  /** The position of the first line at or after i that is not a comment. */
  function FirstNonComment(lines: seq<string>, i: nat): (k: nat)
    ensures i <= k && (k <= |lines| || k == i)
    decreases |lines| - i
  {
    if IsComment(LineAt(lines, i)) then FirstNonComment(lines, i + 1) else i
  }

  /** The lines skipped are exactly the comment lines before the first line
      that is not one; past the end of the file that is the empty line. */
  lemma {:induction false} FirstNonCommentSpec(lines: seq<string>, i: nat)
    ensures var k := FirstNonComment(lines, i);
      && (forall j :: i <= j < k ==> IsComment(LineAt(lines, j)))
      && !IsComment(LineAt(lines, k))
    decreases |lines| - i
  {
    if IsComment(LineAt(lines, i)) {
      FirstNonCommentSpec(lines, i + 1);
    }
  }

  /** A metadata row: its first whitespace-separated token is the sentinel. */
  predicate IsMetadataRow(line: string) {
    var tokens := SplitWords(line);
    tokens != [] && tokens[0] == Sentinel
  }

  /** The station's column in a daily file and the position of its first data row. */
  datatype Located = Located(column: nat, next: nat)

  /** For each of the four rows after the station row at k, whether it is
      a metadata row. */
  function MetadataFlags(lines: seq<string>, k: nat): (flags: seq<bool>)
    ensures |flags| == 4
  {
    seq(4, i requires 0 <= i < 4 => IsMetadataRow(LineAt(lines, k + 1 + i)))
  }

  /** The error for metadata row n (1..4) after the station row at k. */
  function MetadataRowError(lines: seq<string>, k: nat, n: nat): ConvertError {
    var line := LineAt(lines, k + n);
    if SplitWords(line) == [] then MetadataLineEmpty(n, line) else NotMetadataLine(n, line)
  }

  /** What _scroll_and_find_col finds from read position `start`. */
  function LocateColumn(lines: seq<string>, start: nat, station: string): Result<Located> {
    LocateColumnAt(lines, FirstNonComment(lines, start), station)
  }

  /** What _scroll_and_find_col finds when the station row is row k. */
  function LocateColumnAt(lines: seq<string>, k: nat, station: string): Result<Located> {
    var row := LineAt(lines, k);
    var tokens := SplitWords(row);
    if tokens == [] then Failure(EmptyMetadataRow(row))
    else if tokens[0] != Sentinel then Failure(NotMetadataRow(row))
    else match IndexOf(tokens, station)
      case None => Failure(StationNotFound(station, tokens[1..]))
      case Some(column) =>
        match MetadataCheck(lines, k)
        case Some(e) => Failure(e)
        case None => Success(Located(column, k + 5))
  }

  /** The check of the four rows after the station row at k: the error of
      the first that is not a metadata row, if any. */
  function MetadataCheck(lines: seq<string>, k: nat): Option<ConvertError> {
    match IndexOf(MetadataFlags(lines, k), false)
    case None => None
    case Some(i) => Some(MetadataRowError(lines, k, i + 1))
  }

  /** After the comment lines comes the station row, whose first token must
      be the sentinel; the station's column is the first index of the
      station among that row's tokens; the next four rows must be metadata
      rows too, and reading then resumes just after them, inside the file. */
  lemma LocateColumnSpec(lines: seq<string>, start: nat, station: string)
    ensures var r := LocateColumn(lines, start, station);
            var k := FirstNonComment(lines, start);
            var row := LineAt(lines, k);
            var tokens := SplitWords(row);
      && (r.Success? <==>
            IsMetadataRow(row) && station in tokens
            && forall j :: k < j <= k + 4 ==> IsMetadataRow(LineAt(lines, j)))
      && (r.Success? ==>
            && r.value.next == k + 5 && r.value.next <= |lines|
            && r.value.column < |tokens| && tokens[r.value.column] == station
            && station !in tokens[..r.value.column])
      && (tokens == [] ==> r == Failure(EmptyMetadataRow(row)))
      && (tokens != [] && tokens[0] != Sentinel ==> r == Failure(NotMetadataRow(row)))
      && (IsMetadataRow(row) && station !in tokens ==>
            r == Failure(StationNotFound(station, tokens[1..])))
  {
    var k := FirstNonComment(lines, start);
    AllMetadataRows(lines, k);
    if false !in MetadataFlags(lines, k) {
      assert MetadataFlags(lines, k)[3];
    }
  }

  /** No flag is false exactly when all four rows are metadata rows. */
  lemma AllMetadataRows(lines: seq<string>, k: nat)
    ensures false !in MetadataFlags(lines, k)
      <==> forall j :: k < j <= k + 4 ==> IsMetadataRow(LineAt(lines, j))
  {
    var flags := MetadataFlags(lines, k);
    if false !in flags {
      forall j | k < j <= k + 4
        ensures IsMetadataRow(LineAt(lines, j))
      {
        assert flags[j - k - 1];
      }
    }
    if false in flags {
      var i :| 0 <= i < 4 && !flags[i];
      assert !IsMetadataRow(LineAt(lines, k + 1 + i));
    }
  }

  /** A metadata row after the station row that fails is reported with its
      number and text: as empty when it has no tokens, otherwise as not
      starting with the sentinel. */
  lemma LocateColumnMetadataError(lines: seq<string>, k: nat, station: string, n: nat)
    requires IsMetadataRow(LineAt(lines, k)) && station in SplitWords(LineAt(lines, k))
    requires 1 <= n <= 4 && !IsMetadataRow(LineAt(lines, k + n))
    requires forall j :: k < j < k + n ==> IsMetadataRow(LineAt(lines, j))
    ensures LocateColumnAt(lines, k, station) == Failure(MetadataRowError(lines, k, n))
  {
    FirstFailingFlag(lines, k, n);
    LocateColumnFailingFlag(lines, k, station, n);
  }

  lemma LocateColumnFailingFlag(lines: seq<string>, k: nat, station: string, n: nat)
    requires IsMetadataRow(LineAt(lines, k)) && station in SplitWords(LineAt(lines, k))
    requires MetadataCheck(lines, k) == Some(MetadataRowError(lines, k, n))
    ensures LocateColumnAt(lines, k, station) == Failure(MetadataRowError(lines, k, n))
  {
  }

  lemma FirstFailingFlag(lines: seq<string>, k: nat, n: nat)
    requires 1 <= n <= 4 && !IsMetadataRow(LineAt(lines, k + n))
    requires forall j :: k < j < k + n ==> IsMetadataRow(LineAt(lines, j))
    ensures IndexOf(MetadataFlags(lines, k), false) == Some(n - 1)
    ensures MetadataCheck(lines, k) == Some(MetadataRowError(lines, k, n))
  {
    var flags := MetadataFlags(lines, k);
    assert !flags[n - 1];
    forall i | 0 <= i < n - 1
      ensures flags[i]
    {
      assert IsMetadataRow(LineAt(lines, k + 1 + i));
    }
    assert false !in flags[..n - 1];
    IndexOfIs(flags, false, n - 1);
  }

  /** The comment-skipping loop of _scroll_and_find_col: reads lines from
      `start` until one does not start with '#'. */
  method SkipComments(lines: seq<string>, start: nat) returns (pos: nat, line: string)
    ensures pos == FirstNonComment(lines, start) && line == LineAt(lines, pos)
  {
    pos := start;
    line := LineAt(lines, pos);
    while IsComment(line)
      invariant start <= pos <= FirstNonComment(lines, start)
      invariant FirstNonComment(lines, pos) == FirstNonComment(lines, start)
      invariant line == LineAt(lines, pos)
      decreases |lines| - pos
    {
      pos := pos + 1;
      line := LineAt(lines, pos);
    }
  }

  /** The loop of _scroll_and_find_col that eats the four metadata rows
      after the station row at k, stopping at the first that is not one. */
  method EatMetadataRows(lines: seq<string>, k: nat) returns (error: Option<ConvertError>)
    ensures error == MetadataCheck(lines, k)
  {
    ghost var flags := MetadataFlags(lines, k);
    var lineno := 1;
    while lineno < 5
      invariant 1 <= lineno <= 5
      invariant false !in flags[..lineno - 1]
    {
      error := CheckMetadataRow(lines, k, lineno);
      if error.Some? {
        IndexOfIs(flags, false, lineno - 1);
        return;
      }
      assert flags[..lineno] == flags[..lineno - 1] + [flags[lineno - 1]];
      lineno := lineno + 1;
    }
    assert flags[..4] == flags;
    return None;
  }

  /** One pass of that loop: row k + lineno must start with the sentinel. */
  method CheckMetadataRow(lines: seq<string>, k: nat, lineno: nat) returns (error: Option<ConvertError>)
    requires 1 <= lineno <= 4
    ensures error.None? <==> MetadataFlags(lines, k)[lineno - 1]
    ensures error.Some? ==> error.value == MetadataRowError(lines, k, lineno)
  {
    var line := LineAt(lines, k + lineno);
    var tokens := SplitWords(line);
    assert MetadataFlags(lines, k)[lineno - 1] == IsMetadataRow(LineAt(lines, k + 1 + (lineno - 1)));
    if tokens == [] {
      return Some(MetadataLineEmpty(lineno, line));
    }
    if tokens[0] != Sentinel {
      return Some(NotMetadataLine(lineno, line));
    }
    return None;
  }

  /** Comparer._scroll_and_find_col: skips the comment lines, finds the
      station's column in the station row and eats the four further
      metadata rows. */
  method ScrollAndFindCol(lines: seq<string>, start: nat, station: string) returns (r: Result<Located>)
    ensures r == LocateColumn(lines, start, station)
  {
    var pos, line := SkipComments(lines, start);
    var stations := SplitWords(line);
    if stations == [] {
      return Failure(EmptyMetadataRow(line));
    }
    if stations[0] != Sentinel {
      return Failure(NotMetadataRow(line));
    }
    var column := IndexOf(stations, station);
    if column.None? {
      return Failure(StationNotFound(station, stations[1..]));
    }
    var error := EatMetadataRows(lines, pos);
    if error.Some? {
      return Failure(error.value);
    }
    return Success(Located(column.value, pos + 5));
  }

  /** What one pair of daily rows contributes. */
  datatype Row = Stop | Bad(error: ConvertError) | Entry(date: string, diff: real)

  /** One step of the lockstep loop of _load_data on the reference row `orig`
      and the projected row `trans`, the `lineno`-th data row (from 0). */
  function ReadRow(orig: string, trans: string, lineno: nat, colOrig: nat, colTrans: nat): (r: Row)
    ensures r.Stop? <==> IsBlank(orig) && IsBlank(trans)
    ensures IsBlank(orig) != IsBlank(trans) ==> r == Bad(FilesDidNotMatch(orig, trans))
  {
    if IsBlank(orig) && IsBlank(trans) then Stop
    else if IsBlank(orig) || IsBlank(trans) then Bad(FilesDidNotMatch(orig, trans))
    else
      SplitWordsEmpty(orig);
      SplitWordsEmpty(trans);
      var so, st := SplitWords(orig), SplitWords(trans);
      var date := so[0];
      if date != st[0] then Bad(DateMismatch(lineno, date, st[0]))
      else if colTrans >= |st| then Bad(ValueColumnMissing(trans))
      else if ParseDecimal(st[colTrans]).None? then Bad(NotANumber(st[colTrans]))
      else if colOrig >= |so| then Bad(ValueColumnMissing(orig))
      else if ParseDecimal(so[colOrig]).None? then Bad(NotANumber(so[colOrig]))
      else Entry(date, ParseDecimal(st[colTrans]).value - ParseDecimal(so[colOrig]).value)
  }

  /** The tokens of a pair of non-blank rows, their dates and the two values:
      the row is an entry exactly when the dates agree, both rows reach the
      station's column and both values parse; the entry then holds the date
      and projected - reference. Differing dates give the date-mismatch error
      carrying the data line number. */
  lemma ReadRowSpec(orig: string, trans: string, lineno: nat, colOrig: nat, colTrans: nat)
    requires !IsBlank(orig) && !IsBlank(trans)
    ensures SplitWords(orig) != [] && SplitWords(trans) != []
    ensures var r := ReadRow(orig, trans, lineno, colOrig, colTrans);
            var so, st := SplitWords(orig), SplitWords(trans);
      && (so[0] != st[0] ==> r == Bad(DateMismatch(lineno, so[0], st[0])))
      && (r.Entry? <==>
            && so[0] == st[0] && colTrans < |st| && colOrig < |so|
            && ParseDecimal(st[colTrans]).Some? && ParseDecimal(so[colOrig]).Some?)
      && (r.Entry? ==>
            && r.date == so[0]
            && r.diff == ParseDecimal(st[colTrans]).value - ParseDecimal(so[colOrig]).value)
  {
    SplitWordsEmpty(orig);
    SplitWordsEmpty(trans);
  }

  /** The body of the lockstep loop of _load_data on one pair of rows:
      stop on two blank rows, fail on one, compare the dates, then read the
      two values at the station's columns. */
  method ReadPair(orig: string, trans: string, lineno: nat, colOrig: nat, colTrans: nat) returns (row: Row)
    ensures row == ReadRow(orig, trans, lineno, colOrig, colTrans)
  {
    if IsBlank(orig) && IsBlank(trans) {
      return Stop;
    }
    if IsBlank(orig) || IsBlank(trans) {
      return Bad(FilesDidNotMatch(orig, trans));
    }
    SplitWordsEmpty(orig);
    SplitWordsEmpty(trans);
    var splitOrig := SplitWords(orig);
    var splitTrans := SplitWords(trans);
    var date := splitOrig[0];
    if date != splitTrans[0] {
      return Bad(DateMismatch(lineno, date, splitTrans[0]));
    }
    if colTrans >= |splitTrans| {
      return Bad(ValueColumnMissing(trans));
    }
    var transValue := ParseDecimal(splitTrans[colTrans]);
    if transValue.None? {
      return Bad(NotANumber(splitTrans[colTrans]));
    }
    if colOrig >= |splitOrig| {
      return Bad(ValueColumnMissing(orig));
    }
    var origValue := ParseDecimal(splitOrig[colOrig]);
    if origValue.None? {
      return Bad(NotANumber(splitOrig[colOrig]));
    }
    return Entry(date, transValue.value - origValue.value);
  }

  /** The data rows of the two files, paired from positions `po` and `pt`. */
  datatype Pairing = Pairing(orig: seq<string>, trans: seq<string>, po: nat, pt: nat, colOrig: nat, colTrans: nat)

  /** Data row r (from 0) of a pairing. */
  function RowOf(p: Pairing, r: nat): Row {
    ReadRow(LineAt(p.orig, p.po + r), LineAt(p.trans, p.pt + r), r, p.colOrig, p.colTrans)
  }

  lemma RowOfLines(p: Pairing, r: nat, orig: string, trans: string)
    requires orig == LineAt(p.orig, p.po + r) && trans == LineAt(p.trans, p.pt + r)
    ensures RowOf(p, r) == ReadRow(orig, trans, r, p.colOrig, p.colTrans)
  {
  }

  /** `rows` are the data rows of the pairing, from the first on. */
  predicate RowsOf(p: Pairing, rows: seq<Row>) {
    forall r {:trigger RowOf(p, r)} :: 0 <= r < |rows| ==> rows[r] == RowOf(p, r)
  }

  /** A run of rows whose last row is not an entry: the lockstep loop ends by then. */
  predicate Terminated(rows: seq<Row>) {
    rows != [] && !rows[|rows| - 1].Entry?
  }

  /** The data rows the lockstep loop can reach: it must stop by the row
      where the reference file has run out, which is blank. */
  function Rows(p: Pairing): (rows: seq<Row>)
    ensures Terminated(rows) && RowsOf(p, rows)
  {
    var n := if p.po <= |p.orig| then |p.orig| - p.po + 1 else 1;
    assert LineAt(p.orig, p.po + (n - 1)) == [];
    seq(n, r requires 0 <= r < n => RowOf(p, r))
  }

  /** The table after storing rows r, r + 1, ... into `table` in order,
      and the error that ends the run, if any. */
  datatype LoadRun = LoadRun(table: map<string, real>, error: Option<ConvertError>)

  function LoadRows(rows: seq<Row>, r: nat, table: map<string, real>): LoadRun
    requires Terminated(rows) && r < |rows|
    decreases |rows| - r
  {
    match rows[r]
    case Stop => LoadRun(table, None)
    case Bad(e) => LoadRun(table, Some(e))
    case Entry(date, diff) => LoadRows(rows, r + 1, table[date := diff])
  }

  /** What Comparer._load_data leaves in the table it fills, starting from
      `table`, and the error it raises, if any. */
  function Load(orig: seq<string>, trans: seq<string>, station: string, table: map<string, real>): LoadRun {
    match LocateColumn(orig, 0, station)
    case Failure(e) => LoadRun(table, Some(e))
    case Success(lo) =>
      match LocateColumn(trans, 0, station)
      case Failure(e) => LoadRun(table, Some(e))
      case Success(lt) => LoadRows(Rows(Pairing(orig, trans, lo.next, lt.next, lo.column, lt.column)), 0, table)
  }

  /** The first row, from r on, that is not a complete entry. */
  function FirstNonEntry(rows: seq<Row>, r: nat): (n: nat)
    requires Terminated(rows) && r < |rows|
    ensures r <= n < |rows|
    ensures forall j :: r <= j < n ==> rows[j].Entry?
    ensures !rows[n].Entry?
    decreases |rows| - r
  {
    if rows[r].Entry? then FirstNonEntry(rows, r + 1) else r
  }

  /** Row j's date is not repeated by a later entry before row n. */
  predicate LastWithDate(rows: seq<Row>, j: nat, n: nat)
    requires j < |rows| && rows[j].Entry? && n <= |rows|
  {
    forall m :: j < m < n && rows[m].Entry? ==> rows[m].date != rows[j].date
  }

  /** The lockstep run ends at the first row n that is not a complete
      entry: it succeeds exactly when both rows there are blank and
      otherwise fails with that row's error. */
  lemma {:induction false} LoadRowsError(rows: seq<Row>, r: nat, table: map<string, real>)
    requires Terminated(rows) && r < |rows|
    ensures var n := FirstNonEntry(rows, r);
      && (LoadRows(rows, r, table).error.None? <==> rows[n].Stop?)
      && (rows[n].Bad? ==> LoadRows(rows, r, table).error == Some(rows[n].error))
    decreases |rows| - r
  {
    if rows[r].Entry? {
      LoadRowsError(rows, r + 1, table[rows[r].date := rows[r].diff]);
    }
  }

  /** The run adds exactly the dates of the rows before the first row that
      is not an entry to the table's keys. */
  lemma {:induction false} LoadRowsKeys(rows: seq<Row>, r: nat, table: map<string, real>)
    requires Terminated(rows) && r < |rows|
    ensures var n := FirstNonEntry(rows, r);
      LoadRows(rows, r, table).table.Keys == table.Keys + (set j | r <= j < n :: rows[j].date)
    decreases |rows| - r
  {
    var n := FirstNonEntry(rows, r);
    if rows[r].Entry? {
      LoadRowsKeys(rows, r + 1, table[rows[r].date := rows[r].diff]);
      ghost var here := set j | r <= j < n :: rows[j].date;
      ghost var later := set j | r + 1 <= j < n :: rows[j].date;
      forall d | d in here
        ensures d in {rows[r].date} + later
      {
        var j :| r <= j < n && rows[j].date == d;
        if j > r {
          assert d in later;
        }
      }
      assert here == {rows[r].date} + later;
    }
  }

  /** A date that no row of the run carries keeps its value. */
  lemma {:induction false} LoadRowsKeeps(rows: seq<Row>, r: nat, table: map<string, real>, d: string)
    requires Terminated(rows) && r < |rows|
    requires d in table
    requires forall j :: r <= j < FirstNonEntry(rows, r) ==> rows[j].date != d
    ensures d in LoadRows(rows, r, table).table && LoadRows(rows, r, table).table[d] == table[d]
    decreases |rows| - r
  {
    if rows[r].Entry? {
      LoadRowsKeeps(rows, r + 1, table[rows[r].date := rows[r].diff], d);
    }
  }

  /** Each date read maps to the offset of its last row: a later row with
      the same date overwrites an earlier one. */
  lemma LoadRowsValues(rows: seq<Row>, r: nat, table: map<string, real>)
    requires Terminated(rows) && r < |rows|
    ensures var n := FirstNonEntry(rows, r);
      forall j :: r <= j < n && LastWithDate(rows, j, n) ==>
        rows[j].date in LoadRows(rows, r, table).table && LoadRows(rows, r, table).table[rows[j].date] == rows[j].diff
  {
    var n := FirstNonEntry(rows, r);
    forall j | r <= j < n && LastWithDate(rows, j, n)
      ensures rows[j].date in LoadRows(rows, r, table).table && LoadRows(rows, r, table).table[rows[j].date] == rows[j].diff
    {
      LoadRowsValueAt(rows, r, table, j);
    }
  }

  lemma {:induction false} LoadRowsValueAt(rows: seq<Row>, r: nat, table: map<string, real>, j: nat)
    requires Terminated(rows) && r < |rows| && r <= j < FirstNonEntry(rows, r)
    requires LastWithDate(rows, j, FirstNonEntry(rows, r))
    ensures rows[j].date in LoadRows(rows, r, table).table && LoadRows(rows, r, table).table[rows[j].date] == rows[j].diff
    decreases |rows| - r
  {
    var next := table[rows[r].date := rows[r].diff];
    assert FirstNonEntry(rows, r) == FirstNonEntry(rows, r + 1);
    if j == r {
      LoadRowsKeeps(rows, r + 1, next, rows[r].date);
    } else {
      LoadRowsValueAt(rows, r + 1, next, j);
    }
  }

  /** Comparer: the offset table, filled in place by LoadData. */
  class Comparer {
    var data: map<string, real>

    /** Comparer.__init__ starts from an empty table (the loading it then
        triggers is LoadData). */
    constructor ()
      ensures data == map[]
    {
      data := map[];
    }

    /** Comparer.get_diff: the offset of the date, or a KeyError. The hour is unused. */
    method GetDiff(date: string, hour: string) returns (r: Result<real>)
      ensures date in data ==> r == Success(data[date])
      ensures date !in data ==> r == Failure(DateNotFound(date))
    {
      if date in data {
        r := Success(data[date]);
      } else {
        r := Failure(DateNotFound(date));
      }
    }

    /** Comparer._load_data: locates the station's column in both files, then
        reads them in lockstep, storing projected - reference under each date,
        until both rows are blank; any error ends the run early. */
    method LoadData(orig: seq<string>, trans: seq<string>, station: string) returns (error: Option<ConvertError>)
      modifies this
      ensures data == Load(orig, trans, station, old(data)).table
      ensures error == Load(orig, trans, station, old(data)).error
    {
      var lo := ScrollAndFindCol(orig, 0, station);
      if lo.Failure? {
        return Some(lo.error);
      }
      var lt := ScrollAndFindCol(trans, 0, station);
      if lt.Failure? {
        return Some(lt.error);
      }
      var p := Pairing(orig, trans, lo.value.next, lt.value.next, lo.value.column, lt.value.column);
      error := ReadDataRows(p, Rows(p));
    }

    /** Reads data row r of both files (at read positions i and j). */
    method ReadRowAt(p: Pairing, r: nat, ghost rows: seq<Row>, i: nat, j: nat) returns (row: Row)
      requires RowsOf(p, rows) && r < |rows| && i == p.po + r && j == p.pt + r
      ensures row == rows[r]
    {
      var orig, trans := LineAt(p.orig, i), LineAt(p.trans, j);
      row := ReadPair(orig, trans, r, p.colOrig, p.colTrans);
      RowOfLines(p, r, orig, trans);
    }

    /** The lockstep loop of _load_data, from the first data row of each
        file; `rows` are the data rows it reads. */
    method ReadDataRows(p: Pairing, ghost rows: seq<Row>) returns (error: Option<ConvertError>)
      requires Terminated(rows) && RowsOf(p, rows)
      modifies this
      ensures data == LoadRows(rows, 0, old(data)).table
      ensures error == LoadRows(rows, 0, old(data)).error
    {
      var colOrig, colTrans := p.colOrig, p.colTrans;
      var i, j := p.po, p.pt;
      var dataLineno := 0;
      while true
        invariant dataLineno < |rows|
        invariant i == p.po + dataLineno && j == p.pt + dataLineno
        invariant LoadRows(rows, 0, old(data)) == LoadRows(rows, dataLineno, data)
        decreases |rows| - dataLineno
      {
        var row := ReadRowAt(p, dataLineno, rows, i, j);
        if row.Stop? {
          break;
        }
        if row.Bad? {
          return Some(row.error);
        }
        data := data[row.date := row.diff];
        i, j, dataLineno := i + 1, j + 1, dataLineno + 1;
      }
      return None;
    }
  }
}
