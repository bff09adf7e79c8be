/** The Transformer of convert.py: it copies the hourly file's preamble and
    header, then rewrites every non-blank data row, shifting the temperature
    T (and T10N when present) by ten times the day's offset, in tenths of a
    degree, each rewritten value right-justified to five characters.

    Files are sequences of lines without terminators; the output file is a
    sequence of lines that the transformation appends to.
 */
module Transformer {
  import opened Common
  import opened Text
  import opened Numbers
  import Comparer

  /** The width every rewritten value is right-justified to. */
  const Width: nat := 5

  /** The positions of the five columns the transformation needs. */
  datatype Columns = Columns(station: nat, date: nat, hour: nat, temp: nat, t10n: nat)

  /** The header's field names: the header line without its leading '#',
      split at commas, each name stripped. */
  function HeaderFields(line: string): (names: seq<string>)
    ensures |names| >= 1
  {
    var fields := Split(if line == [] then [] else line[1..], ',');
    seq(|fields|, k requires 0 <= k < |fields| => Strip(fields[k]))
  }

  /** i is the first position of x in xs, as list.index reports it. */
  predicate FirstIndex(xs: seq<string>, x: string, i: nat) {
    i < |xs| && xs[i] == x && x !in xs[..i]
  }

  /** The lookups of the five required names in the header; a missing name
      is the "Required column not found" error naming the whole header. */
  function FindColumns(headers: seq<string>): (r: Result<Columns>)
    ensures r.Success? <==>
      "STN" in headers && "YYYYMMDD" in headers && "HH" in headers && "T" in headers && "T10N" in headers
    ensures r.Failure? ==> r.error == MissingColumn(headers)
    ensures r.Success? ==>
      && FirstIndex(headers, "STN", r.value.station)
      && FirstIndex(headers, "YYYYMMDD", r.value.date)
      && FirstIndex(headers, "HH", r.value.hour)
      && FirstIndex(headers, "T", r.value.temp)
      && FirstIndex(headers, "T10N", r.value.t10n)
  {
    var station, date, hour := IndexOf(headers, "STN"), IndexOf(headers, "YYYYMMDD"), IndexOf(headers, "HH");
    var temp, t10n := IndexOf(headers, "T"), IndexOf(headers, "T10N");
    if station.Some? && date.Some? && hour.Some? && temp.Some? && t10n.Some? then
      Success(Columns(station.value, date.value, hour.value, temp.value, t10n.value))
    else
      Failure(MissingColumn(headers))
  }

  /** The columns found in a header are pairwise distinct, in particular
      T and T10N. */
  lemma ColumnsDistinct(headers: seq<string>)
    requires FindColumns(headers).Success?
    ensures var c := FindColumns(headers).value;
      && c.temp != c.t10n && c.temp != c.station && c.temp != c.date && c.temp != c.hour
      && c.t10n != c.station && c.t10n != c.date && c.t10n != c.hour
      && c.station != c.date && c.station != c.hour && c.date != c.hour
  {
  }

  /** str(n).rjust(5) */
  function FormatField(n: int): (r: string)
    ensures |r| >= Width
  {
    RightJustify(IntToString(n), Width)
  }

  /** A formatted value is exactly five characters unless the integer's text
      is longer, holds no comma, is the integer's text left-padded with ' ',
      and int() of its stripped text gives the integer back. */
  lemma FormatFieldSpec(n: int)
    ensures var r := FormatField(n);
      && ',' !in r
      && (|IntToString(n)| <= Width ==> |r| == Width)
      && r[|r| - |IntToString(n)|..] == IntToString(n)
      && (forall k :: 0 <= k < |r| - |IntToString(n)| ==> r[k] == ' ')
      && Strip(r) == IntToString(n)
      && ParseInt(Strip(r)) == Some(n)
  {
    var s := IntToString(n);
    var r := FormatField(n);
    RightJustifySpec(s, Width);
    IntToStringSpec(n);
    var pad := r[..|r| - |s|];
    assert r == pad + s;
    PaddedText(pad, s);
    ParseIntOfIntToString(n);
  }

  /** The part of FormatFieldSpec a rewritten line needs: no comma, and the
      integer reads back. */
  lemma FormatFieldReadsBack(n: int)
    ensures ',' !in FormatField(n) && ParseInt(Strip(FormatField(n))) == Some(n)
  {
    FormatFieldSpec(n);
  }

  /** int(value + 10 * diff): the value in tenths of a degree shifted by ten
      times the offset in degrees, truncated toward zero. */
  function Adjust(value: int, diff: real): (r: int)
    ensures diff == 0.0 ==> r == value
  {
    Trunc(value as real + 10.0 * diff)
  }

  /** What a data line yields once its fields are read: the stripped station,
      the raw date, the integer T and the optional integer T10N. */
  datatype Reading = Reading(found: string, date: string, temp: int, t10n: Option<int>)

  /** The reads of one data line's fields, in the script's order: station,
      date, hour and T must exist, T must be an integer, then T10N must exist
      and be blank or an integer. */
  function ReadFields(values: seq<string>, cols: Columns, line: string): Result<Reading> {
    if cols.station >= |values| then Failure(FieldMissing(cols.station, line))
    else if cols.date >= |values| then Failure(FieldMissing(cols.date, line))
    else if cols.hour >= |values| then Failure(FieldMissing(cols.hour, line))
    else if cols.temp >= |values| then Failure(FieldMissing(cols.temp, line))
    else match ParseInt(Strip(values[cols.temp]))
      case None => Failure(NotAnInteger(Strip(values[cols.temp])))
      case Some(temp) =>
        if cols.t10n >= |values| then Failure(FieldMissing(cols.t10n, line))
        else if IsBlank(values[cols.t10n]) then
          Success(Reading(Strip(values[cols.station]), values[cols.date], temp, None))
        else match ParseInt(Strip(values[cols.t10n]))
          case None => Failure(NotAnInteger(Strip(values[cols.t10n])))
          case Some(t10n) => Success(Reading(Strip(values[cols.station]), values[cols.date], temp, Some(t10n)))
  }

  /** A line's fields are read exactly when all five columns exist, T is an
      integer and T10N is blank or an integer; the reading then holds those
      fields and values. */
  lemma ReadFieldsSpec(values: seq<string>, cols: Columns, line: string)
    ensures ReadFields(values, cols, line).Success? <==>
      && cols.station < |values| && cols.date < |values| && cols.hour < |values|
      && cols.temp < |values| && cols.t10n < |values|
      && ParseInt(Strip(values[cols.temp])).Some?
      && (IsBlank(values[cols.t10n]) || ParseInt(Strip(values[cols.t10n])).Some?)
    ensures ReadFields(values, cols, line).Success? ==>
      var rd := ReadFields(values, cols, line).value;
      && rd.found == Strip(values[cols.station])
      && rd.date == values[cols.date]
      && Some(rd.temp) == ParseInt(Strip(values[cols.temp]))
      && (rd.t10n.None? <==> IsBlank(values[cols.t10n]))
      && (rd.t10n.Some? ==> rd.t10n == ParseInt(Strip(values[cols.t10n])))
    ensures cols.station >= |values| ==> ReadFields(values, cols, line) == Failure(FieldMissing(cols.station, line))
  {
  }

  /** out_vals: the fields with T, and T10N when present, replaced by their
      shifted values. */
  function Shifted(values: seq<string>, cols: Columns, rd: Reading, diff: real): seq<string>
    requires cols.temp < |values| && cols.t10n < |values|
  {
    var out := values[cols.temp := FormatField(Adjust(rd.temp, diff))];
    if rd.t10n.None? then out else out[cols.t10n := FormatField(Adjust(rd.t10n.value, diff))]
  }

  /** The per-line rewrite of Transformer.transform on a non-blank data line,
      with `table` the offsets Comparer.get_diff looks up. */
  function RewriteLine(line: string, cols: Columns, station: string, table: map<string, real>): Result<string> {
    var values := Split(line, ',');
    match ReadFields(values, cols, line)
    case Failure(e) => Failure(e)
    case Success(rd) =>
      if rd.found != station then Failure(StationMismatch(station, rd.found, rd.date))
      else if rd.date !in table then Failure(DateNotFound(rd.date))
      else Success(Join(Shifted(values, cols, rd, table[rd.date]), ','))
  }

  /** A data line is rewritten exactly when its fields are read, its station
      is the expected one and its date has an offset; a foreign station is
      refused before the date is looked up. */
  lemma RewriteLineOutcome(line: string, cols: Columns, station: string, table: map<string, real>)
    ensures var values := Split(line, ',');
      var read := ReadFields(values, cols, line);
      && (RewriteLine(line, cols, station, table).Success? <==>
            read.Success? && read.value.found == station && read.value.date in table)
      && (read.Failure? ==> RewriteLine(line, cols, station, table) == Failure(read.error))
      && (read.Success? && read.value.found != station ==>
            RewriteLine(line, cols, station, table) == Failure(StationMismatch(station, read.value.found, read.value.date)))
      && (read.Success? && read.value.found == station && read.value.date !in table ==>
            RewriteLine(line, cols, station, table) == Failure(DateNotFound(read.value.date)))
  {
  }

  /** The shifted fields keep every field but T and T10N; T becomes the
      shifted value, which reads back as that value (so an offset of zero
      keeps it), and T10N likewise when present. No field holds a comma. */
  lemma ShiftedSpec(values: seq<string>, cols: Columns, rd: Reading, diff: real)
    requires cols.temp < |values| && cols.t10n < |values| && cols.temp != cols.t10n
    requires forall k :: 0 <= k < |values| ==> ',' !in values[k]
    ensures var out := Shifted(values, cols, rd, diff);
      && |out| == |values|
      && out[cols.temp] == FormatField(Adjust(rd.temp, diff))
      && ParseInt(Strip(out[cols.temp])) == Some(Adjust(rd.temp, diff))
      && (diff == 0.0 ==> ParseInt(Strip(out[cols.temp])) == Some(rd.temp))
      && (rd.t10n.None? ==> out[cols.t10n] == values[cols.t10n])
      && (rd.t10n.Some? ==> out[cols.t10n] == FormatField(Adjust(rd.t10n.value, diff)))
      && (forall k :: 0 <= k < |values| && k != cols.temp && k != cols.t10n ==> out[k] == values[k])
      && (forall k :: 0 <= k < |out| ==> ',' !in out[k])
  {
    FormatFieldReadsBack(Adjust(rd.temp, diff));
    if rd.t10n.Some? {
      FormatFieldReadsBack(Adjust(rd.t10n.value, diff));
    }
  }

  /** Splitting a rewritten line at commas gives back the shifted fields. */
  lemma RewriteLineFields(line: string, cols: Columns, station: string, table: map<string, real>)
    requires RewriteLine(line, cols, station, table).Success?
    requires cols.temp != cols.t10n
    ensures var values := Split(line, ',');
      && ReadFields(values, cols, line).Success?
      && var rd := ReadFields(values, cols, line).value;
      && rd.date in table
      && cols.temp < |values| && cols.t10n < |values|
      && Split(RewriteLine(line, cols, station, table).value, ',') == Shifted(values, cols, rd, table[rd.date])
  {
    var values := Split(line, ',');
    var rd := ReadFields(values, cols, line).value;
    ReadFieldsSpec(values, cols, line);
    SplitSpec(line, ',');
    ShiftedSpec(values, cols, rd, table[rd.date]);
    SplitOfJoin(Shifted(values, cols, rd, table[rd.date]), ',');
  }

  /** What one data line contributes: a blank line is copied and not counted,
      a rewritten line is written and counted, and a line that cannot be
      rewritten aborts the transformation. */
  datatype Step = Copied(line: string) | Written(line: string) | Aborted(error: ConvertError)

  function StepOf(line: string, cols: Columns, station: string, table: map<string, real>): Step {
    if IsBlank(line) then Copied(line)
    else match RewriteLine(line, cols, station, table)
      case Success(out) => Written(out)
      case Failure(e) => Aborted(e)
  }

  /** steps are the steps of the data lines, one per line. */
  predicate StepsOf(lines: seq<string>, cols: Columns, station: string, table: map<string, real>, steps: seq<Step>) {
    && |steps| == |lines|
    && forall k {:trigger StepOf(lines[k], cols, station, table)} :: 0 <= k < |lines| ==>
         steps[k] == StepOf(lines[k], cols, station, table)
  }

  function Steps(lines: seq<string>, cols: Columns, station: string, table: map<string, real>): (steps: seq<Step>)
    ensures |steps| == |lines|
  {
    seq(|lines|, k requires 0 <= k < |lines| => StepOf(lines[k], cols, station, table))
  }

  lemma StepsSpec(lines: seq<string>, cols: Columns, station: string, table: map<string, real>)
    ensures StepsOf(lines, cols, station, table, Steps(lines, cols, station, table))
  {
  }

  /** The lines written so far and how the transformation ended: the number
      of rewritten lines, or the error that aborted it. */
  datatype Run = Run(written: seq<string>, outcome: Result<nat>)

  /** The data loop from step k on, with `written` the output so far and
      `count` the lines rewritten so far. */
  function RunSteps(steps: seq<Step>, k: nat, written: seq<string>, count: nat): Run
    requires k <= |steps|
    decreases |steps| - k
  {
    if k == |steps| then Run(written, Success(count))
    else match steps[k]
      case Copied(line) => RunSteps(steps, k + 1, written + [line], count)
      case Written(line) => RunSteps(steps, k + 1, written + [line], count + 1)
      case Aborted(e) => Run(written, Failure(e))
  }

  /** The first aborting step at or after k, or |steps| when none aborts. */
  function FirstAborted(steps: seq<Step>, k: nat): (a: nat)
    requires k <= |steps|
    ensures k <= a <= |steps|
    ensures forall j :: k <= j < a ==> !steps[j].Aborted?
    ensures a < |steps| ==> steps[a].Aborted?
    decreases |steps| - k
  {
    if k == |steps| || steps[k].Aborted? then k else FirstAborted(steps, k + 1)
  }

  /** The lines of the non-aborting steps k .. a-1, in order. */
  function Outputs(steps: seq<Step>, k: nat, a: nat): seq<string>
    requires k <= a <= |steps|
    requires forall j :: k <= j < a ==> !steps[j].Aborted?
    decreases a - k
  {
    if k == a then [] else [steps[k].line] + Outputs(steps, k + 1, a)
  }

  /** How many of the steps k .. a-1 are rewritten lines. */
  function Rewrites(steps: seq<Step>, k: nat, a: nat): nat
    requires k <= a <= |steps|
    decreases a - k
  {
    if k == a then 0 else (if steps[k].Written? then 1 else 0) + Rewrites(steps, k + 1, a)
  }

  /** The data loop writes the lines of every step before the first abort,
      then ends with that abort's error, or, when no step aborts, with the
      number of rewritten lines. */
  lemma {:induction false} RunStepsOutcome(steps: seq<Step>, k: nat, written: seq<string>, count: nat)
    requires k <= |steps|
    ensures var a := FirstAborted(steps, k);
      var run := RunSteps(steps, k, written, count);
      && run.written == written + Outputs(steps, k, a)
      && (a < |steps| ==> run.outcome == Failure(steps[a].error))
      && (a == |steps| ==> run.outcome == Success(count + Rewrites(steps, k, a)))
    decreases |steps| - k
  {
    if k < |steps| && !steps[k].Aborted? {
      var line := steps[k].line;
      var next := if steps[k].Written? then count + 1 else count;
      RunStepsOutcome(steps, k + 1, written + [line], next);
      assert RunSteps(steps, k, written, count) == RunSteps(steps, k + 1, written + [line], next);
      assert written + [line] + Outputs(steps, k + 1, FirstAborted(steps, k)) == written + Outputs(steps, k, FirstAborted(steps, k));
    }
  }

  /** Some line of the hourly file starts with '#'. Without one, the
      preamble loop of transform reads past the end forever. */
  predicate HasHeader(input: seq<string>) {
    exists h :: 0 <= h < |input| && IsComment(input[h])
  }

  /** The position of the first line at or after i that starts with '#'. */
  function HeaderAt(input: seq<string>, i: nat): (h: nat)
    requires exists h :: i <= h < |input| && IsComment(input[h])
    ensures i <= h < |input| && IsComment(input[h])
    decreases |input| - i
  {
    if IsComment(input[i]) then i else HeaderAt(input, i + 1)
  }

  /** No line between i and the header line starts with '#'. */
  lemma {:induction false} HeaderAtSpec(input: seq<string>, i: nat)
    requires exists h :: i <= h < |input| && IsComment(input[h])
    ensures forall j :: i <= j < HeaderAt(input, i) ==> !IsComment(input[j])
    decreases |input| - i
  {
    if !IsComment(input[i]) {
      HeaderAtSpec(input, i + 1);
    }
  }

  /** The whole of transform on the hourly file `input`, appending to the
      output `out`: the preamble up to and including the '#' header line is
      copied, the five columns are looked up, then every data line runs. */
  function TransformRun(input: seq<string>, station: string, table: map<string, real>, out: seq<string>): Run
    requires HasHeader(input)
  {
    var h := HeaderAt(input, 0);
    RunAfterHeader(input, h, FindColumns(HeaderFields(input[h])), station, table, out)
  }

  /** The run once the lines up to the header line h are copied and the
      columns looked up, with `found` the outcome of the lookup. */
  function RunAfterHeader(input: seq<string>, h: nat, found: Result<Columns>, station: string,
                          table: map<string, real>, out: seq<string>): Run
    requires h < |input|
  {
    var written := out + input[..h + 1];
    match found
    case Failure(e) => Run(written, Failure(e))
    case Success(cols) => RunSteps(Steps(input[h + 1..], cols, station, table), 0, written, 0)
  }


  /** A data line the loop gets past: blank, or rewritten successfully. */
  predicate Rewritable(line: string, cols: Columns, station: string, table: map<string, real>) {
    IsBlank(line) || RewriteLine(line, cols, station, table).Success?
  }

  /** What the loop writes for a line it gets past. */
  function OutLine(line: string, cols: Columns, station: string, table: map<string, real>): string
    requires Rewritable(line, cols, station, table)
  {
    if IsBlank(line) then line else RewriteLine(line, cols, station, table).value
  }

  /** w is `base` lines followed by what the loop writes for the first a
      data lines, each of which it gets past. */
  predicate WritesData(w: seq<string>, base: nat, data: seq<string>, cols: Columns, station: string,
                       table: map<string, real>, a: nat) {
    && a <= |data| && |w| == base + a
    && forall k :: 0 <= k < a ==>
         Rewritable(data[k], cols, station, table) && w[base + k] == OutLine(data[k], cols, station, table)
  }

  /** The number of non-blank lines. */
  function NonBlankCount(lines: seq<string>): nat {
    if lines == [] then 0 else (if IsBlank(lines[0]) then 0 else 1) + NonBlankCount(lines[1..])
  }

  /** The first data line at or after k the loop cannot get past, or |data|. */
  function FirstRefused(data: seq<string>, cols: Columns, station: string, table: map<string, real>, k: nat): (a: nat)
    requires k <= |data|
    ensures k <= a <= |data|
    ensures forall j :: k <= j < a ==> Rewritable(data[j], cols, station, table)
    ensures a < |data| ==> !Rewritable(data[a], cols, station, table)
    decreases |data| - k
  {
    if k == |data| || !Rewritable(data[k], cols, station, table) then k
    else FirstRefused(data, cols, station, table, k + 1)
  }

  lemma {:induction false} OutputsSpec(steps: seq<Step>, k: nat, a: nat)
    requires k <= a <= |steps|
    requires forall j :: k <= j < a ==> !steps[j].Aborted?
    ensures |Outputs(steps, k, a)| == a - k
    ensures forall j :: k <= j < a ==> Outputs(steps, k, a)[j - k] == steps[j].line
    decreases a - k
  {
    if k < a {
      OutputsSpec(steps, k + 1, a);
      var o := Outputs(steps, k, a);
      assert o == [steps[k].line] + Outputs(steps, k + 1, a);
      forall j | k < j < a
        ensures o[j - k] == steps[j].line
      {
        assert o[j - k] == Outputs(steps, k + 1, a)[j - (k + 1)];
      }
    }
  }

  lemma {:induction false} RewritesCount(data: seq<string>, cols: Columns, station: string, table: map<string, real>,
                                         steps: seq<Step>, k: nat, a: nat)
    requires StepsOf(data, cols, station, table, steps) && k <= a <= |data|
    requires forall j :: k <= j < a ==> Rewritable(data[j], cols, station, table)
    ensures Rewrites(steps, k, a) == NonBlankCount(data[k..a])
    decreases a - k
  {
    if k < a {
      RewritesCount(data, cols, station, table, steps, k + 1, a);
      assert data[k..a][0] == data[k];
      assert data[k..a][1..] == data[k + 1..a];
      assert steps[k] == StepOf(data[k], cols, station, table);
    }
  }

  /** The data loop writes, in order, the copy of each blank line and the
      rewrite of each other line up to the first line it cannot get past;
      it then fails with that line's error, or, past the last line, returns
      the number of non-blank lines. */
  lemma DataRun(data: seq<string>, cols: Columns, station: string, table: map<string, real>, written: seq<string>)
    ensures var a := FirstRefused(data, cols, station, table, 0);
      var run := RunSteps(Steps(data, cols, station, table), 0, written, 0);
      && written <= run.written
      && WritesData(run.written, |written|, data, cols, station, table, a)
      && (a < |data| ==> run.outcome == Failure(RewriteLine(data[a], cols, station, table).error))
      && (a == |data| ==> run.outcome == Success(NonBlankCount(data)))
  {
    StepsSpec(data, cols, station, table);
    DataRunOf(data, cols, station, table, Steps(data, cols, station, table), written);
  }

  lemma DataRunOf(data: seq<string>, cols: Columns, station: string, table: map<string, real>,
                  steps: seq<Step>, written: seq<string>)
    requires StepsOf(data, cols, station, table, steps)
    ensures var a := FirstRefused(data, cols, station, table, 0);
      var run := RunSteps(steps, 0, written, 0);
      && written <= run.written
      && WritesData(run.written, |written|, data, cols, station, table, a)
      && (a < |data| ==> run.outcome == Failure(RewriteLine(data[a], cols, station, table).error))
      && (a == |data| ==> run.outcome == Success(NonBlankCount(data)))
  {
    var a := FirstRefused(data, cols, station, table, 0);
    StepsMeaning(data, cols, station, table, steps);
    assert FirstAborted(steps, 0) == a;
    RunStepsOutcome(steps, 0, written, 0);
    DataRunWritten(data, cols, station, table, steps, written, a, RunSteps(steps, 0, written, 0).written);
    DataRunOutcome(data, cols, station, table, steps, written, a);
  }

  lemma DataRunWritten(data: seq<string>, cols: Columns, station: string, table: map<string, real>,
                       steps: seq<Step>, written: seq<string>, a: nat, w: seq<string>)
    requires |steps| == |data| && a <= |data|
    requires forall j :: 0 <= j < a ==> Rewritable(data[j], cols, station, table)
    requires forall j :: 0 <= j < |data| ==>
      && (steps[j].Aborted? <==> !Rewritable(data[j], cols, station, table))
      && (!steps[j].Aborted? ==> steps[j].line == OutLine(data[j], cols, station, table))
    requires w == written + Outputs(steps, 0, a)
    ensures written <= w && WritesData(w, |written|, data, cols, station, table, a)
  {
    OutputsSpec(steps, 0, a);
    var o := Outputs(steps, 0, a);
    assert |w| == |written| + a;
    forall k | 0 <= k < a
      ensures Rewritable(data[k], cols, station, table) && w[|written| + k] == OutLine(data[k], cols, station, table)
    {
      assert w[|written| + k] == o[k] == steps[k].line;
    }
  }

  lemma DataRunOutcome(data: seq<string>, cols: Columns, station: string, table: map<string, real>,
                       steps: seq<Step>, written: seq<string>, a: nat)
    requires StepsOf(data, cols, station, table, steps) && a <= |data|
    requires forall j :: 0 <= j < a ==> Rewritable(data[j], cols, station, table)
    requires a < |data| ==> !Rewritable(data[a], cols, station, table) && steps[a].Aborted?
    requires a < |data| ==> steps[a].error == RewriteLine(data[a], cols, station, table).error
    requires a < |data| ==> RunSteps(steps, 0, written, 0).outcome == Failure(steps[a].error)
    requires a == |data| ==> RunSteps(steps, 0, written, 0).outcome == Success(Rewrites(steps, 0, a))
    ensures var run := RunSteps(steps, 0, written, 0);
      && (a < |data| ==> run.outcome == Failure(RewriteLine(data[a], cols, station, table).error))
      && (a == |data| ==> run.outcome == Success(NonBlankCount(data)))
  {
    if a == |data| {
      RewritesCount(data, cols, station, table, steps, 0, a);
      assert data[0..a] == data;
    }
  }

  /** A step aborts exactly on a line the loop cannot get past, with that
      line's error, and otherwise carries the line the loop writes. */
  lemma StepsMeaning(data: seq<string>, cols: Columns, station: string, table: map<string, real>, steps: seq<Step>)
    requires StepsOf(data, cols, station, table, steps)
    ensures forall j :: 0 <= j < |data| ==>
      && (steps[j].Aborted? <==> !Rewritable(data[j], cols, station, table))
      && (!steps[j].Aborted? ==> steps[j].line == OutLine(data[j], cols, station, table))
      && (steps[j].Aborted? ==> steps[j].error == RewriteLine(data[j], cols, station, table).error)
  {
    forall j | 0 <= j < |data|
      ensures steps[j].Aborted? <==> !Rewritable(data[j], cols, station, table)
      ensures !steps[j].Aborted? ==> steps[j].line == OutLine(data[j], cols, station, table)
      ensures steps[j].Aborted? ==> steps[j].error == RewriteLine(data[j], cols, station, table).error
    {
      assert steps[j] == StepOf(data[j], cols, station, table);
    }
  }

  /** transform first copies the preamble and the header line unchanged,
      whatever follows. */
  lemma TransformCopiesPreamble(input: seq<string>, station: string, table: map<string, real>, out: seq<string>)
    requires HasHeader(input)
    ensures var h := HeaderAt(input, 0);
      var run := TransformRun(input, station, table, out);
      out + input[..h + 1] <= run.written
  {
    var h := HeaderAt(input, 0);
    var found := FindColumns(HeaderFields(input[h]));
    assert TransformRun(input, station, table, out) == RunAfterHeader(input, h, found, station, table, out);
    CopiesHeader(input, h, found, station, table, out);
  }

  lemma CopiesHeader(input: seq<string>, h: nat, found: Result<Columns>, station: string,
                     table: map<string, real>, out: seq<string>)
    requires h < |input|
    ensures var run := RunAfterHeader(input, h, found, station, table, out);
      out + input[..h + 1] <= run.written
  {
    if found.Success? {
      DataRun(input[h + 1..], found.value, station, table, out + input[..h + 1]);
    }
  }

  /** transform fails with the missing-column error, right after the header,
      exactly when one of STN, YYYYMMDD, HH, T and T10N is not a header name. */
  lemma TransformMissingColumn(input: seq<string>, station: string, table: map<string, real>, out: seq<string>)
    requires HasHeader(input)
    ensures var h := HeaderAt(input, 0);
      var headers := HeaderFields(input[h]);
      var run := TransformRun(input, station, table, out);
      && (run.outcome == Failure(MissingColumn(headers)) <==>
            !("STN" in headers && "YYYYMMDD" in headers && "HH" in headers && "T" in headers && "T10N" in headers))
      && (run.outcome == Failure(MissingColumn(headers)) ==> run.written == out + input[..h + 1])
  {
    var h := HeaderAt(input, 0);
    var found := FindColumns(HeaderFields(input[h]));
    if found.Success? {
      NoMissingColumnAfterHeader(input, h, found.value, station, table, out);
    }
  }

  lemma NoMissingColumnAfterHeader(input: seq<string>, h: nat, cols: Columns, station: string,
                                   table: map<string, real>, out: seq<string>)
    requires h < |input|
    ensures var run := RunAfterHeader(input, h, Success(cols), station, table, out);
      run.outcome.Failure? ==> !run.outcome.error.MissingColumn?
  {
    var data := input[h + 1..];
    DataRun(data, cols, station, table, out + input[..h + 1]);
    var a := FirstRefused(data, cols, station, table, 0);
    if a < |data| {
      RewriteLineErrors(data[a], cols, station, table);
    }
  }

  /** A data line is never refused for a missing header column. */
  lemma RewriteLineErrors(line: string, cols: Columns, station: string, table: map<string, real>)
    ensures RewriteLine(line, cols, station, table).Failure? ==> !RewriteLine(line, cols, station, table).error.MissingColumn?
  {
  }

  /** Once the columns are found, transform writes the copy or rewrite of
      every data line before the first one it cannot rewrite and fails with
      that line's error; when every line is blank or rewritten it has written
      them all and returns the number of non-blank data lines. */
  lemma TransformData(input: seq<string>, station: string, table: map<string, real>, out: seq<string>,
                      h: nat, cols: Columns)
    requires HasHeader(input) && h == HeaderAt(input, 0)
    requires FindColumns(HeaderFields(input[h])) == Success(cols)
    ensures var data := input[h + 1..];
      var a := FirstRefused(data, cols, station, table, 0);
      var run := TransformRun(input, station, table, out);
      && WritesData(run.written, |out| + h + 1, data, cols, station, table, a)
      && (a < |data| ==> run.outcome == Failure(RewriteLine(data[a], cols, station, table).error))
      && (a == |data| ==> run.outcome == Success(NonBlankCount(data)) && |run.written| == |out| + |input|)
  {
    DataRunAfterHeader(input, h, cols, station, table, out);
  }

  /** transform writes one line for each line it reads, except a data line
      it cannot rewrite; when it succeeds it has read the whole file, and
      when a column is missing it has read up to the header line. */
  lemma TransformReadsSpec(input: seq<string>, station: string, table: map<string, real>, out: seq<string>)
    requires HasHeader(input)
    ensures var run := TransformRun(input, station, table, out);
      var n := TransformReads(input, station, table);
      && (run.outcome.Success? ==> n == |input| && |run.written| == |out| + n)
      && (run.outcome.Failure? && run.outcome.error.MissingColumn? ==>
            n == HeaderAt(input, 0) + 1 && |run.written| == |out| + n)
      && (run.outcome.Failure? && !run.outcome.error.MissingColumn? ==> |run.written| + 1 == |out| + n)
  {
    var h := HeaderAt(input, 0);
    var found := FindColumns(HeaderFields(input[h]));
    if found.Failure? {
      TransformRunMissing(input, station, table, out, h, found.error);
      TransformReadsMissing(input, station, table, h, found.error);
    } else {
      var cols := found.value;
      var data := input[h + 1..];
      var steps := Steps(data, cols, station, table);
      TransformRunSteps(input, station, table, out, h, cols, steps);
      TransformReadsSteps(input, station, table, h, cols, steps);
      TransformData(input, station, table, out, h, cols);
      ReadsOfData(data, cols, station, table, steps);
      var a := FirstRefused(data, cols, station, table, 0);
      if a < |data| {
        RewriteLineErrors(data[a], cols, station, table);
      }
    }
  }

  /** The data loop reads the lines up to and including the first one it
      cannot get past, or all of them. */
  lemma ReadsOfData(data: seq<string>, cols: Columns, station: string, table: map<string, real>, steps: seq<Step>)
    requires steps == Steps(data, cols, station, table)
    ensures var a := FirstRefused(data, cols, station, table, 0);
      DataReads(steps) == if a < |data| then a + 1 else a
  {
    StepsSpec(data, cols, station, table);
    StepsMeaning(data, cols, station, table, steps);
    assert FirstAborted(steps, 0) == FirstRefused(data, cols, station, table, 0);
  }

  /** DataRun, with the output so far the preamble and the header line. */
  lemma DataRunAfterHeader(input: seq<string>, h: nat, cols: Columns, station: string, table: map<string, real>,
                           out: seq<string>)
    requires h < |input|
    ensures var data := input[h + 1..];
      var a := FirstRefused(data, cols, station, table, 0);
      var run := RunAfterHeader(input, h, Success(cols), station, table, out);
      && WritesData(run.written, |out| + h + 1, data, cols, station, table, a)
      && (a < |data| ==> run.outcome == Failure(RewriteLine(data[a], cols, station, table).error))
      && (a == |data| ==> run.outcome == Success(NonBlankCount(data)) && |run.written| == |out| + |input|)
  {
    var data := input[h + 1..];
    var written := out + input[..h + 1];
    var steps := Steps(data, cols, station, table);
    var run := RunAfterHeader(input, h, Success(cols), station, table, out);
    var a := FirstRefused(data, cols, station, table, 0);
    RunAfterHeaderSteps(input, h, cols, station, table, out, steps);
    StepsSpec(data, cols, station, table);
    DataRunFrom(data, cols, station, table, steps, written, |out| + h + 1, run);
    if a == |data| {
      assert |data| == |input| - (h + 1);
    }
  }

  /** DataRunOf for a run and a base length given by name. */
  lemma DataRunFrom(data: seq<string>, cols: Columns, station: string, table: map<string, real>,
                    steps: seq<Step>, written: seq<string>, base: nat, run: Run)
    requires StepsOf(data, cols, station, table, steps)
    requires base == |written| && run == RunSteps(steps, 0, written, 0)
    ensures var a := FirstRefused(data, cols, station, table, 0);
      && WritesData(run.written, base, data, cols, station, table, a)
      && (a < |data| ==> run.outcome == Failure(RewriteLine(data[a], cols, station, table).error))
      && (a == |data| ==> run.outcome == Success(NonBlankCount(data)))
  {
    DataRunOf(data, cols, station, table, steps, written);
  }

  /** How many data lines the loop reads: every line up to and including
      the first whose step aborts, or all of them. */
  function DataReads(steps: seq<Step>): (n: nat)
    ensures n <= |steps|
  {
    var a := FirstAborted(steps, 0);
    if a < |steps| then a + 1 else a
  }

  /** How many lines of the hourly file transform reads: the preamble and
      the header line, then, once the columns are found, the data lines the
      loop reads. */
  function TransformReads(input: seq<string>, station: string, table: map<string, real>): (n: nat)
    requires HasHeader(input)
    ensures n <= |input|
  {
    var h := HeaderAt(input, 0);
    match FindColumns(HeaderFields(input[h]))
    case Failure(_) => h + 1
    case Success(cols) => h + 1 + DataReads(Steps(input[h + 1..], cols, station, table))
  }

  // Proof scaffolding. The lemmas from here to the Transformer class
  // unfold TransformRun, TransformReads and the reading of one line a single
  // step at a time, with the values involved passed as parameters. They
  // state no property of transform of their own; they keep each proof of the
  // methods and lemmas above small enough for the solver.

  lemma RunAfterHeaderSteps(input: seq<string>, h: nat, cols: Columns, station: string, table: map<string, real>,
                            out: seq<string>, steps: seq<Step>)
    requires h < |input| && steps == Steps(input[h + 1..], cols, station, table)
    ensures RunAfterHeader(input, h, Success(cols), station, table, out) == RunSteps(steps, 0, out + input[..h + 1], 0)
  {
  }

  /** The run of transform when the header lacks a column. */
  lemma TransformRunMissing(input: seq<string>, station: string, table: map<string, real>, out: seq<string>,
                            h: nat, e: ConvertError)
    requires HasHeader(input) && h == HeaderAt(input, 0)
    requires FindColumns(HeaderFields(input[h])) == Failure(e)
    ensures TransformRun(input, station, table, out) == Run(out + input[..h + 1], Failure(e))
  {
  }

  /** The run of transform when the columns are found: the data loop over
      the steps of the lines after the header. */
  lemma TransformRunSteps(input: seq<string>, station: string, table: map<string, real>, out: seq<string>,
                          h: nat, cols: Columns, steps: seq<Step>)
    requires HasHeader(input) && h == HeaderAt(input, 0)
    requires FindColumns(HeaderFields(input[h])) == Success(cols)
    requires steps == Steps(input[h + 1..], cols, station, table)
    ensures TransformRun(input, station, table, out) == RunSteps(steps, 0, out + input[..h + 1], 0)
  {
  }

  /** When the header lacks a column, transform reads up to the header line. */
  lemma TransformReadsMissing(input: seq<string>, station: string, table: map<string, real>, h: nat, e: ConvertError)
    requires HasHeader(input) && h == HeaderAt(input, 0)
    requires FindColumns(HeaderFields(input[h])) == Failure(e)
    ensures TransformReads(input, station, table) == h + 1
  {
  }

  /** Once the columns are found, transform reads up to the header line,
      then the lines the data loop reads. */
  lemma TransformReadsSteps(input: seq<string>, station: string, table: map<string, real>,
                            h: nat, cols: Columns, steps: seq<Step>)
    requires HasHeader(input) && h == HeaderAt(input, 0)
    requires FindColumns(HeaderFields(input[h])) == Success(cols)
    requires steps == Steps(input[h + 1..], cols, station, table)
    ensures TransformReads(input, station, table) == h + 1 + DataReads(steps)
  {
  }

  /** What transform has written and left unread when the header lacks a
      column, as TransformRun and TransformReads say. */
  lemma TransformEndsMissing(input: seq<string>, station: string, table: map<string, real>, out: seq<string>,
                             h: nat, e: ConvertError, written: seq<string>, rest: seq<string>)
    requires HasHeader(input) && h == HeaderAt(input, 0)
    requires FindColumns(HeaderFields(input[h])) == Failure(e)
    requires written == out + input[..h + 1] && rest == input[h + 1..]
    ensures TransformRun(input, station, table, out) == Run(written, Failure(e))
    ensures rest == input[TransformReads(input, station, table)..]
  {
    TransformRunMissing(input, station, table, out, h, e);
    TransformReadsMissing(input, station, table, h, e);
  }

  /** What transform has written and returned once the data loop ends, as
      TransformRun says. */
  lemma TransformEndsData(input: seq<string>, station: string, table: map<string, real>, out: seq<string>,
                          h: nat, cols: Columns, steps: seq<Step>, written: seq<string>, outcome: Result<nat>)
    requires HasHeader(input) && h == HeaderAt(input, 0)
    requires FindColumns(HeaderFields(input[h])) == Success(cols)
    requires steps == Steps(input[h + 1..], cols, station, table)
    requires Run(written, outcome) == RunSteps(steps, 0, out + input[..h + 1], 0)
    ensures TransformRun(input, station, table, out) == Run(written, outcome)
  {
    TransformRunSteps(input, station, table, out, h, cols, steps);
  }

  /** Reading a lines and then d more leaves the lines from a + d on. */
  lemma LeftUnread(lines: seq<string>, n: nat, a: nat, d: nat, rest: seq<string>)
    requires n == a + d <= |lines| && rest == lines[a..][d..]
    ensures rest == lines[n..]
  {
  }

  /** Reading from line i on gives line i and leaves the lines after it. */
  lemma NextLine(lines: seq<string>, i: nat)
    requires i < |lines|
    ensures LineAt(lines[i..], 0) == lines[i] && lines[i..] != [] && lines[i..][1..] == lines[i + 1..]
  {
  }

  /** The first '#' line the preamble loop meets is the header line. */
  lemma HeaderReached(lines: seq<string>, h: nat)
    requires HasHeader(lines) && h <= HeaderAt(lines, 0) && IsComment(lines[h])
    ensures h == HeaderAt(lines, 0)
  {
    HeaderAtSpec(lines, 0);
  }

  /** Writing line i after lines 0 .. i-1 writes lines 0 .. i. */
  lemma PrefixGrows(out: seq<string>, lines: seq<string>, i: nat)
    requires i < |lines|
    ensures out + lines[..i] + [lines[i]] == out + lines[..i + 1]
  {
    assert lines[..i + 1] == lines[..i] + [lines[i]];
  }

  /** Transformer: reads the hourly file, looks up offsets in the comparer
      and appends the transformed file to `output`. */
  class Transformer {
    const comparer: Comparer.Comparer
    /** The lines of the hourly file not read yet; readline takes the first. */
    var input: seq<string>
    const station: string
    var output: seq<string>

    /** Transformer.__init__ on the lines of the hourly file, with an empty
        output file. */
    constructor (comparer: Comparer.Comparer, input: seq<string>, station: string)
      ensures this.comparer == comparer && this.input == input && this.station == station
      ensures output == []
    {
      this.comparer := comparer;
      this.input := input;
      this.station := station;
      output := [];
    }

    /** readline on the hourly file: the next line, or the empty line at the
        end of the file; the line read is used up. */
    method ReadLine() returns (line: string)
      modifies this`input
      ensures line == LineAt(old(input), 0)
      ensures input == if old(input) == [] then [] else old(input)[1..]
    {
      line := LineAt(input, 0);
      if input != [] {
        input := input[1..];
      }
    }

    /** Transformer.transform: copies the preamble and header, then rewrites
        the data lines, returning how many it rewrote. It reads the file from
        where earlier reads left it, and leaves the lines it did not read. */
    method Transform() returns (r: Result<nat>)
      requires HasHeader(input)
      modifies this
      ensures var run := TransformRun(old(input), station, comparer.data, old(output));
        output == run.written && r == run.outcome
      ensures input == old(input)[TransformReads(old(input), station, comparer.data)..]
    {
      ghost var lines, out := input, output;
      var header;
      ghost var h;
      header, h := CopyPreamble();
      var found := FindColumns(HeaderFields(header));
      if found.Failure? {
        TransformEndsMissing(lines, station, comparer.data, out, h, found.error, output, input);
        return Failure(found.error);
      }
      ghost var steps := Steps(input, found.value, station, comparer.data);
      StepsSpec(input, found.value, station, comparer.data);
      r := TransformData(found.value, steps);
      TransformEndsData(lines, station, comparer.data, out, h, found.value, steps, output, r);
      TransformReadsSteps(lines, station, comparer.data, h, found.value, steps);
      LeftUnread(lines, TransformReads(lines, station, comparer.data), h + 1, DataReads(steps), input);
    }

    /** The preamble loop of transform: copies every line up to and including
        the first '#' line, and returns that header line and its position. */
    method CopyPreamble() returns (line: string, ghost h: nat)
      requires HasHeader(input)
      modifies this
      ensures h == HeaderAt(old(input), 0) && line == old(input)[h]
      ensures output == old(output) + old(input)[..h + 1]
      ensures input == old(input)[h + 1..]
    {
      ghost var lines := input;
      ghost var last := HeaderAt(lines, 0);
      h := 0;
      NextLine(lines, 0);
      line := ReadLine();
      while !IsComment(line)
        invariant h <= last < |lines| && line == lines[h] && input == lines[h + 1..]
        invariant output == old(output) + lines[..h]
        decreases last - h
      {
        PrefixGrows(old(output), lines, h);
        output := output + [line];
        h := h + 1;
        NextLine(lines, h);
        line := ReadLine();
      }
      HeaderReached(lines, h);
      PrefixGrows(old(output), lines, h);
      output := output + [line];
    }

    /** The data loop of transform, over the rest of the file. */
    method TransformData(cols: Columns, ghost steps: seq<Step>) returns (r: Result<nat>)
      requires StepsOf(input, cols, station, comparer.data, steps)
      modifies this
      ensures var run := RunSteps(steps, 0, old(output), 0);
        output == run.written && r == run.outcome
      ensures input == old(input)[DataReads(steps)..]
    {
      ghost var data := input;
      var count := 0;
      ghost var i := 0;
      while input != []
        invariant i <= |data| && input == data[i..]
        invariant RunSteps(steps, 0, old(output), 0) == RunSteps(steps, i, output, count)
        invariant FirstAborted(steps, 0) == FirstAborted(steps, i)
        decreases |input|
      {
        NextLine(data, i);
        var line := ReadLine();
        var step := TransformLine(cols, data, steps, i, line);
        match step {
          case Copied(l) =>
            output := output + [l];
          case Written(l) =>
            output := output + [l];
            count := count + 1;
          case Aborted(e) =>
            return Failure(e);
        }
        i := i + 1;
      }
      return Success(count);
    }

    /** The loop body of transform on data line k: a blank line is copied,
        any other is rewritten. */
    method TransformLine(cols: Columns, ghost data: seq<string>, ghost steps: seq<Step>, ghost k: nat, line: string)
      returns (step: Step)
      requires StepsOf(data, cols, station, comparer.data, steps) && k < |data| && line == data[k]
      ensures step == steps[k]
    {
      if IsBlank(line) {
        step := Copied(line);
      } else {
        var out := RewriteRow(line, cols);
        step := match out case Success(l) => Written(l) case Failure(e) => Aborted(e);
      }
      assert step == StepOf(data[k], cols, station, comparer.data);
    }

    /** The per-line rewrite of transform on a non-blank line: read the
        fields, check the station, fetch the day's offset and shift the
        temperatures. */
    method RewriteRow(line: string, cols: Columns) returns (r: Result<string>)
      ensures r == RewriteLine(line, cols, station, comparer.data)
    {
      var values := Split(line, ',');
      var read := ReadFields(values, cols, line);
      if read.Failure? {
        return Failure(read.error);
      }
      ReadFieldsSpec(values, cols, line);
      var rd := read.value;
      if rd.found != station {
        return Failure(StationMismatch(station, rd.found, rd.date));
      }
      var diff := comparer.GetDiff(rd.date, values[cols.hour]);
      if diff.Failure? {
        return Failure(diff.error);
      }
      var outVals := values[cols.temp := FormatField(Adjust(rd.temp, diff.value))];
      if rd.t10n.Some? {
        outVals := outVals[cols.t10n := FormatField(Adjust(rd.t10n.value, diff.value))];
      }
      return Success(Join(outVals, ','));
    }
  }
}
