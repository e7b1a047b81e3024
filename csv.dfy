/**
 * CSV rendering (pretty/Csv.java): a cell added with text is wrapped in double quotes with
 * every inner quote doubled, as in rule 7 of section 2 of RFC 4180; a blank cell is empty and
 * unquoted; a row is its cells joined by ',' and a table its rows joined by LF (not the CRLF
 * of RFC 4180), with no trailing line break.
 */
module PrettyCsv {
  import opened Wrappers
  import opened Text

  /** Escapers.builder().addEscape('"', "\"\""): every double quote doubled. */
  function Escape(s: string): (e: string)
    ensures |e| >= |s|
    ensures NotIn('"', s) ==> e == s
  {
    if s == [] then []
    else (if s[0] == '"' then "\"\"" else [s[0]]) + Escape(s[1..])
  }

  /** The inverse of Escape: a doubled quote stands for one quote; a lone quote is malformed. */
  function Unescape(e: string): (r: Option<string>)
    decreases |e|
  {
    if e == [] then Some([])
    else if e[0] != '"' then
      match Unescape(e[1..])
      case Some(rest) => Some([e[0]] + rest)
      case None => None
    else if |e| >= 2 && e[1] == '"' then
      match Unescape(e[2..])
      case Some(rest) => Some("\"" + rest)
      case None => None
    else None
  }

  lemma {:induction false} UnescapeEscape(s: string)
    ensures Unescape(Escape(s)) == Some(s)
  {
    if s != [] {
      UnescapeEscape(s[1..]);
      var e := Escape(s);
      if s[0] == '"' {
        assert e[2..] == Escape(s[1..]);
      } else {
        assert e[1..] == Escape(s[1..]);
      }
      assert s == [s[0]] + s[1..];
    }
  }

  /** The text of a cell added with add(message, args). */
  function Quote(s: string): (q: string)
    ensures |q| >= 2 && q[0] == '"' && q[|q| - 1] == '"'
  {
    "\"" + Escape(s) + "\""
  }

  /** Reading a quoted cell back: strip the outer quotes and undo the doubling. */
  function Unquote(q: string): (r: Option<string>) {
    if |q| >= 2 && q[0] == '"' && q[|q| - 1] == '"' then Unescape(q[1..|q| - 1]) else None
  }

  lemma QuoteRoundTrip(s: string)
    ensures Unquote(Quote(s)) == Some(s)
  {
    var q := Quote(s);
    assert q[1..|q| - 1] == Escape(s);
    UnescapeEscape(s);
  }

  /** A built row: its cells in insertion order. */
  datatype Row = Row(cells: seq<string>) {
    /** Row.toString: the cells joined by ','. */
    function Text(): string {
      Join(cells, ',')
    }
  }

  /** A row whose cells hold no ',' splits back into its cells. */
  lemma RowSplitsBack(row: Row)
    requires row.cells != [] && forall i :: 0 <= i < |row.cells| ==> NotIn(',', row.cells[i])
    ensures Split(row.Text(), ',') == row.cells
  {
    SplitJoin(row.cells, ',');
  }

  /** The rendered rows, in order. */
  function RowTexts(rows: seq<Row>): (ts: seq<string>)
    ensures |ts| == |rows| && forall i :: 0 <= i < |rows| ==> ts[i] == rows[i].Text()
  {
    seq(|rows|, i requires 0 <= i < |rows| => rows[i].Text())
  }

  /** A built table. */
  datatype Csv = Csv(rows: seq<Row>) {
    /** Csv.toString: the rows joined by LF, with no trailing line break. */
    function Text(): string {
      Join(RowTexts(rows), '\n')
    }
  }

  /** A table whose rows hold no line break splits back, line by line, into its rows. */
  lemma CsvSplitsBack(csv: Csv)
    requires csv.rows != [] && forall i :: 0 <= i < |csv.rows| ==> NotIn('\n', csv.rows[i].Text())
    ensures Split(csv.Text(), '\n') == RowTexts(csv.rows)
  {
    SplitJoin(RowTexts(csv.rows), '\n');
  }

  /** RowBuilder: the cells added so far. */
  class RowBuilder {
    var cells: seq<string>

    constructor()
      ensures cells == []
    {
      cells := [];
    }

    /**
     * add(message, args): the message, formatted with args only when there are any, quoted.
     * String.format is the `format` parameter.
     */
    method Add(message: string, args: seq<string>, format: (string, seq<string>) -> string)
      modifies this
      ensures cells == old(cells) + [Quote(if args == [] then message else format(message, args))]
      ensures Unquote(cells[|cells| - 1]) == Some(if args == [] then message else format(message, args))
    {
      var text := if args == [] then message else format(message, args);
      QuoteRoundTrip(text);
      cells := cells + [Quote(text)];
    }

    /** addBlank: an empty, unquoted cell. */
    method AddBlank()
      modifies this
      ensures cells == old(cells) + [""]
    {
      cells := cells + [""];
    }

    method Build() returns (row: Row)
      ensures row.cells == cells
    {
      row := Row(cells);
    }
  }

  /** Csv.Builder: the rows added so far. */
  class CsvBuilder {
    var rows: seq<Row>

    constructor()
      ensures rows == []
    {
      rows := [];
    }

    method Add(row: Row)
      modifies this
      ensures rows == old(rows) + [row]
    {
      rows := rows + [row];
    }

    method Build() returns (csv: Csv)
      ensures csv.rows == rows
    {
      csv := Csv(rows);
    }
  }
}

/**
 * CsvScheduleToProto.CsvProcessor: reads "section, room name, period" lines and keeps, per
 * section, the start assignment with the smallest period id.
 */
module CsvSchedule {
  import opened Wrappers
  import opened Errors
  import opened Text
  import opened Sequences

  /** SerialStartAssignment as this reader fills it. */
  datatype CsvStart = CsvStart(sectionId: int, roomId: int, periodId: int)

  /**
   * The room-name index built from the program's buildings: ImmutableMap.Builder throws
   * IllegalArgumentException when two rooms share a name.
   */
  function RoomIndex(rooms: seq<(string, int)>): (r: Result<map<string, int>, JavaError>)
    ensures r.Failure? ==> r.error == IllegalArgument
  {
    if rooms == [] then Success(map[])
    else
      match RoomIndex(rooms[..|rooms| - 1])
      case Failure(e) => Failure(e)
      case Success(m) =>
        var last := rooms[|rooms| - 1];
        if last.0 in m then Failure(IllegalArgument)
        else Success(m[last.0 := last.1])
  }

  predicate DistinctNames(rooms: seq<(string, int)>) {
    forall i, j :: 0 <= i < j < |rooms| ==> rooms[i].0 != rooms[j].0
  }

  /**
   * The index is built exactly when no two rooms share a name; it then maps each room's name
   * to its id, and holds no other name.
   */
  lemma {:induction false} RoomIndexFacts(rooms: seq<(string, int)>)
    ensures RoomIndex(rooms).Success? <==> DistinctNames(rooms)
    ensures RoomIndex(rooms).Success? ==>
              forall i :: 0 <= i < |rooms| ==> rooms[i].0 in RoomIndex(rooms).value && RoomIndex(rooms).value[rooms[i].0] == rooms[i].1
    ensures RoomIndex(rooms).Success? ==> forall name :: name in RoomIndex(rooms).value <==> exists i :: 0 <= i < |rooms| && rooms[i].0 == name
  {
    if rooms != [] {
      var front := rooms[..|rooms| - 1];
      var last := rooms[|rooms| - 1];
      RoomIndexFacts(front);
      assert forall i :: 0 <= i < |front| ==> front[i] == rooms[i];
      if RoomIndex(front).Success? {
        var m := RoomIndex(front).value;
        if last.0 in m {
          var i :| 0 <= i < |front| && front[i].0 == last.0;
          assert rooms[i].0 == rooms[|rooms| - 1].0;
        } else {
          assert DistinctNames(rooms) by {
            forall i, j | 0 <= i < j < |rooms|
              ensures rooms[i].0 != rooms[j].0
            {
              if j < |front| {
                assert front[i] == rooms[i] && front[j] == rooms[j];
              } else {
                assert front[i].0 in m;
              }
            }
          }
        }
      } else {
        assert !DistinctNames(front);
        var i, j :| 0 <= i < j < |front| && front[i].0 == front[j].0;
        assert rooms[i].0 == rooms[j].0;
      }
    }
  }

  /** PERIOD_ORDERING.nullsLast().min(assign, prev): prev only when its period is strictly smaller. */
  function Earlier(assign: CsvStart, prev: Option<CsvStart>): (r: CsvStart)
    ensures r == assign || (prev.Some? && r == prev.value)
    ensures prev.Some? ==> r.periodId <= assign.periodId && r.periodId <= prev.value.periodId
    ensures prev.Some? && prev.value.periodId == assign.periodId ==> r == assign
  {
    if prev.None? || assign.periodId <= prev.value.periodId then assign else prev.value
  }

  /** The map after start a is offered: its section keeps the earlier of a and what it held. */
  function Keep(m: map<int, CsvStart>, a: CsvStart): (m': map<int, CsvStart>)
    ensures m'.Keys == m.Keys + {a.sectionId}
  {
    m[a.sectionId := Earlier(a, if a.sectionId in m then Some(m[a.sectionId]) else None)]
  }

  /** Keep files every start under its own section when the map already did. */
  lemma KeepValid(m: map<int, CsvStart>, a: CsvStart)
    requires forall s :: s in m ==> m[s].sectionId == s
    ensures forall s :: s in Keep(m, a) ==> Keep(m, a)[s].sectionId == s
  {
  }

  /**
   * What one line contributes: the cells are the ','-split, trimmed pieces; the section and
   * period ids must parse (NumberFormatException otherwise), a missing cell throws
   * IndexOutOfBoundsException, and an unknown room name contributes nothing.
   */
  function ParseLine(rooms: map<string, int>, line: string): (r: Result<Option<CsvStart>, JavaError>)
  {
    var cells := SplitTrim(line, ',');
    match ParseInt(Some(cells[0]))
    case Failure(e) => Failure(e)
    case Success(sectionId) =>
      if |cells| < 2 then Failure(IndexOutOfBounds)
      else if cells[1] !in rooms then Success(None)
      else if |cells| < 3 then Failure(IndexOutOfBounds)
      else
        match ParseInt(Some(cells[2]))
        case Failure(e) => Failure(e)
        case Success(periodId) => Success(Some(CsvStart(sectionId, rooms[cells[1]], periodId)))
  }

  /**
   * A line is accepted only with at least two cells; a start is read from it only when the
   * second cell names a known room and the first and third cells parse as the section and
   * period ids; an unknown room gives no start.
   */
  lemma ParseLineCells(rooms: map<string, int>, line: string)
    ensures var r := ParseLine(rooms, line);
            var cells := SplitTrim(line, ',');
            && (r.Success? ==> |cells| >= 2)
            && (r.Success? && r.value.Some? ==>
                  && |cells| >= 3
                  && cells[1] in rooms
                  && r.value.value.roomId == rooms[cells[1]]
                  && ParseInt(Some(cells[0])) == Success(r.value.value.sectionId)
                  && ParseInt(Some(cells[2])) == Success(r.value.value.periodId))
            && (r.Success? && r.value.None? ==> cells[1] !in rooms)
  {
  }

  /** firstAssignment after the given accepted starts, in order. */
  function FirstAssignments(starts: seq<CsvStart>): (m: map<int, CsvStart>)
    ensures m.Keys == set i | 0 <= i < |starts| :: starts[i].sectionId
  {
    if starts == [] then map[]
    else
      var front := FirstAssignments(starts[..|starts| - 1]);
      var a := starts[|starts| - 1];
      var m := Keep(front, a);
      assert forall i :: 0 <= i < |starts| - 1 ==> starts[..|starts| - 1][i] == starts[i];
      m
  }

  /**
   * Each section of m holds one of the given starts of that section, of the smallest period
   * id among them.
   */
  ghost predicate Minimal(m: map<int, CsvStart>, starts: seq<CsvStart>) {
    forall s :: s in m ==>
      && m[s].sectionId == s
      && m[s] in starts
      && forall i :: 0 <= i < |starts| && starts[i].sectionId == s ==> m[s].periodId <= starts[i].periodId
  }

  /** Each section keeps one of its own starts, of the smallest period id among them. */
  lemma {:induction false} FirstAssignmentsAreMinimal(starts: seq<CsvStart>)
    ensures Minimal(FirstAssignments(starts), starts)
  {
    if starts != [] {
      var front := starts[..|starts| - 1];
      var a := starts[|starts| - 1];
      FirstAssignmentsAreMinimal(front);
      forall i | 0 <= i < |front|
        ensures front[i].sectionId in FirstAssignments(front)
      {
        SectionKept(front, i);
      }
      KeepMinimal(FirstAssignments(front), a, front);
      assert starts == front + [a];
    }
  }

  lemma {:induction false} KeepMinimal(m: map<int, CsvStart>, a: CsvStart, front: seq<CsvStart>)
    requires Minimal(m, front)
    requires forall i :: 0 <= i < |front| ==> front[i].sectionId in m
    ensures Minimal(Keep(m, a), front + [a])
  {
    var starts := front + [a];
    var k := Keep(m, a);
    forall s | s in k
      ensures k[s].sectionId == s && k[s] in starts
      ensures forall i :: 0 <= i < |starts| && starts[i].sectionId == s ==> k[s].periodId <= starts[i].periodId
    {
      if s != a.sectionId {
        assert k[s] == m[s];
        forall i | 0 <= i < |starts| && starts[i].sectionId == s
          ensures k[s].periodId <= starts[i].periodId
        {
          assert i < |front| && starts[i] == front[i];
        }
      } else {
        var prev := if s in m then Some(m[s]) else None;
        assert k[s] == Earlier(a, prev);
        forall i | 0 <= i < |starts| && starts[i].sectionId == s
          ensures k[s].periodId <= starts[i].periodId
        {
          if i < |front| {
            assert starts[i] == front[i] && s in m;
          }
        }
      }
    }
  }

  lemma SectionKept(starts: seq<CsvStart>, i: nat)
    requires i < |starts|
    ensures starts[i].sectionId in FirstAssignments(starts)
  {
  }

  /** The accepted starts of the lines read so far, or the exception a line threw. */
  function AcceptedStarts(rooms: map<string, int>, lines: seq<string>): Result<seq<CsvStart>, JavaError> {
    if lines == [] then Success([])
    else
      match AcceptedStarts(rooms, lines[..|lines| - 1])
      case Failure(e) => Failure(e)
      case Success(starts) =>
        match ParseLine(rooms, lines[|lines| - 1])
        case Failure(e) => Failure(e)
        case Success(None) => Success(starts)
        case Success(Some(a)) => Success(starts + [a])
  }

  /** CsvProcessor: the room-name index and the first assignment of each section so far. */
  class CsvProcessor {
    const rooms: map<string, int>
    var firstAssignment: map<int, CsvStart>

    /** Each kept start is filed under its own section. */
    ghost predicate Valid()
      reads this
    {
      forall s :: s in firstAssignment ==> firstAssignment[s].sectionId == s
    }

    constructor(rooms: map<string, int>)
      ensures this.rooms == rooms && firstAssignment == map[] && Valid()
    {
      this.rooms := rooms;
      firstAssignment := map[];
    }

    /**
     * processLine: true for every line read, an unknown room included (the state is then
     * unchanged); a malformed line throws and changes nothing.
     */
    method ProcessLine(line: string) returns (r: Result<bool, JavaError>)
      requires Valid()
      modifies this
      ensures Valid()
      ensures r.Success? <==> ParseLine(rooms, line).Success?
      ensures r.Success? ==> r.value
      ensures r.Failure? ==> r.error == ParseLine(rooms, line).error
      ensures ParseLine(rooms, line).Success? && ParseLine(rooms, line).value.Some? ==>
                firstAssignment == Keep(old(firstAssignment), ParseLine(rooms, line).value.value)
      ensures !(ParseLine(rooms, line).Success? && ParseLine(rooms, line).value.Some?) ==>
                firstAssignment == old(firstAssignment)
    {
      var parsed := ParseLine(rooms, line);
      if parsed.Failure? {
        return Failure(parsed.error);
      }
      if parsed.value.None? {
        return Success(true);
      }
      var a := parsed.value.value;
      KeepValid(firstAssignment, a);
      var prev := if a.sectionId in firstAssignment then Some(firstAssignment[a.sectionId]) else None;
      firstAssignment := firstAssignment[a.sectionId := Earlier(a, prev)];
      return Success(true);
    }

    /** getResult: every kept assignment once, in the map's iteration order. */
    method GetResult() returns (result: seq<CsvStart>)
      requires Valid()
      ensures |result| == |firstAssignment|
      ensures forall i :: 0 <= i < |result| ==>
                result[i].sectionId in firstAssignment && firstAssignment[result[i].sectionId] == result[i]
      ensures forall i, j :: 0 <= i < j < |result| ==> result[i].sectionId != result[j].sectionId
    {
      result := [];
      var left := firstAssignment.Keys;
      while left != {}
        invariant left <= firstAssignment.Keys
        invariant |result| + |left| == |firstAssignment|
        invariant forall i :: 0 <= i < |result| ==>
                    result[i].sectionId in firstAssignment.Keys - left && firstAssignment[result[i].sectionId] == result[i]
        invariant forall i, j :: 0 <= i < j < |result| ==> result[i].sectionId != result[j].sectionId
        invariant |result| == |firstAssignment.Keys - left|
        decreases |left|
      {
        ghost var w := Pick(left);
        var s :| s in left;
        var a := firstAssignment[s];
        result := result + [a];
        left := left - {s};
      }
    }
  }

  /**
   * Reading a whole file: processLine on each line in order, stopping at the first exception;
   * firstAssignment then equals FirstAssignments of the accepted starts.
   */
  method ReadLines(rooms: map<string, int>, lines: seq<string>) returns (r: Result<map<int, CsvStart>, JavaError>)
    ensures AcceptedStarts(rooms, lines).Failure? <==> r.Failure?
    ensures r.Success? ==> r.value == FirstAssignments(AcceptedStarts(rooms, lines).value)
    ensures r.Failure? ==> r.error == AcceptedStarts(rooms, lines).error
  {
    var processor := new CsvProcessor(rooms);
    FirstAssignmentsAreMinimal([]);
    for i := 0 to |lines|
      invariant AcceptedStarts(rooms, lines[..i]).Success?
      invariant processor.rooms == rooms && processor.Valid()
      invariant processor.firstAssignment == FirstAssignments(AcceptedStarts(rooms, lines[..i]).value)
    {
      assert lines[..i + 1][..i] == lines[..i];
      var ok := processor.ProcessLine(lines[i]);
      if ok.Failure? {
        FailureSticks(rooms, lines, i + 1);
        return Failure(ok.error);
      }
      FirstAssignmentsAreMinimal(AcceptedStarts(rooms, lines[..i + 1]).value);
    }
    assert lines[..|lines|] == lines;
    return Success(processor.firstAssignment);
  }

  /** Once a line throws, reading any longer prefix throws the same exception. */
  lemma {:induction false} FailureSticks(rooms: map<string, int>, lines: seq<string>, n: nat)
    requires n <= |lines| && AcceptedStarts(rooms, lines[..n]).Failure?
    ensures AcceptedStarts(rooms, lines) == AcceptedStarts(rooms, lines[..n])
    decreases |lines| - n
  {
    if n < |lines| {
      assert lines[..n + 1][..n] == lines[..n];
      FailureSticks(rooms, lines, n + 1);
    } else {
      assert lines[..n] == lines;
    }
  }
}
