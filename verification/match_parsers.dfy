/**
 * The match-history extractors of app.py: `parse_matches` and the three
 * per-game parsers it dispatches to. The parsed page is reduced to the rows
 * of its first `wikitable` table, in document order (header row included),
 * each row given by its `class` attribute and the stripped texts of its
 * `td` cells.
 */
module MatchParsers {
  import opened Wrappers
  import opened Text
  import opened MatchResult
  import opened Catalog

  /** One `tr` of the table: its classes and the stripped text of each cell. */
  datatype TableRow = TableRow(classes: seq<string>, cells: seq<string>)

  /** What a parser produces: its lines, or an exception (an `IndexError`
      from reading a cell the row does not have) that escapes the parser. */
  datatype Parsed = Lines(lines: seq<string>) | Raised

  /** What one row contributes: nothing, a line, or an exception. */
  datatype RowOutcome = Skip | Emit(line: string) | Fault

  const Tbd: string := "TBD"
  const NoCounterStrikeMatches: string := "Nenhuma partida de CS2 encontrada"
  const NoValorantMatches: string := "Nenhuma partida de Valorant encontrada"
  const NoLeagueTable: string := "Nenhuma tabela de partidas encontrada"
  const NoLeagueMatches: string := "Nenhuma partida válida encontrada"
  const NoParser: string := "Parser não implementado para este jogo"

  const WinClass: string := "recent-matches-bg-win"
  const LoseClass: string := "recent-matches-bg-lose"
  const LeagueWin: string := "✅ Vitória"
  const LeagueLoss: string := "❌ Derrota"
  const LeagueNoResult: string := "🔶 Sem resultado"

  /** The opponent column of League rows is cut to this many characters. */
  const OpponentWidth: nat := 30

  /** The rows each parser looks at: `rows[1:6]` for Counter-Strike and
      Valorant, `rows[1:10]` for League of Legends. */
  const ShortWindowEnd: nat := 6
  const LeagueWindowEnd: nat := 10

  // ---------------------------------------------------------------------
  // The loop shared by the parsers
  // ---------------------------------------------------------------------

  /** The parser loop over `rows` with per-row step `read`: the first
      exception ends the loop and escapes; otherwise the emitted lines, in
      row order. */
  function Collect(rows: seq<TableRow>, read: TableRow -> RowOutcome): (r: Parsed)
    ensures r.Raised? <==> exists i :: 0 <= i < |rows| && read(rows[i]).Fault?
    ensures r.Lines? ==> |r.lines| <= |rows|
    ensures r.Lines? ==> (r.lines == [] <==> forall i :: 0 <= i < |rows| ==> read(rows[i]).Skip?)
  {
    if rows == [] then Lines([])
    else
      var rest := Collect(rows[1..], read);
      var quiet := (row: TableRow) => !read(row).Fault?;
      var skipped := (row: TableRow) => read(row).Skip?;
      AllTail(rows, quiet);
      AllTail(rows, skipped);
      assert quiet(rows[0]) == !read(rows[0]).Fault? && skipped(rows[0]) == read(rows[0]).Skip?;
      Then(read(rows[0]), rest)
  }

  /** One step of the loop: the row's outcome in front of what the later
      rows give. */
  function Then(o: RowOutcome, rest: Parsed): Parsed
  {
    match o
    case Fault => Raised
    case Skip => rest
    case Emit(line) =>
      match rest
      case Raised => Raised
      case Lines(ls) => Lines([line] + ls)
  }

  /** The loop over two runs in a row: the lines of both, or the exception
      of either. */
  function Concat(p: Parsed, q: Parsed): Parsed
  {
    match (p, q)
    case (Lines(x), Lines(y)) => Lines(x + y)
    case _ => Raised
  }

  lemma ThenConcat(o: RowOutcome, p: Parsed, q: Parsed, pq: Parsed, whole: Parsed)
    requires pq == Concat(p, q) && whole == Then(o, pq)
    ensures whole == Concat(Then(o, p), q)
  {
    if o.Emit? && p.Lines? && q.Lines? {
      assert [o.line] + (p.lines + q.lines) == ([o.line] + p.lines) + q.lines;
    }
  }

  /** The loop over two runs of rows is the loop over the first followed by
      the loop over the second; an exception in the first run ends it. */
  lemma {:induction false} CollectAppend(a: seq<TableRow>, b: seq<TableRow>, read: TableRow -> RowOutcome)
    ensures Collect(a + b, read) == Concat(Collect(a, read), Collect(b, read))
  {
    if a == [] {
      assert a + b == b;
      match Collect(b, read)
      case Raised =>
      case Lines(y) => assert [] + y == y;
    } else {
      assert (a + b)[0] == a[0] && (a + b)[1..] == a[1..] + b;
      CollectAppend(a[1..], b, read);
      ThenConcat(read(a[0]), Collect(a[1..], read), Collect(b, read), Collect(a[1..] + b, read), Collect(a + b, read));
    }
  }

  /** Rows that all emit give their lines one for one, in order. */
  lemma {:induction false} CollectAllEmit(rows: seq<TableRow>, read: TableRow -> RowOutcome)
    requires forall i :: 0 <= i < |rows| ==> read(rows[i]).Emit?
    ensures Collect(rows, read).Lines?
    ensures |Collect(rows, read).lines| == |rows|
    ensures forall i :: 0 <= i < |rows| ==> Collect(rows, read).lines[i] == read(rows[i]).line
  {
    if rows != [] {
      forall i | 0 <= i < |rows[1..]|
        ensures read(rows[1..][i]).Emit?
      {
        assert rows[1..][i] == rows[i + 1];
      }
      CollectAllEmit(rows[1..], read);
      var ls := Collect(rows[1..], read).lines;
      forall i | 1 <= i < |rows|
        ensures Collect(rows, read).lines[i] == read(rows[i]).line
      {
        assert rows[1..][i - 1] == rows[i];
      }
    }
  }

  /** The body shared by the three parsers: the loop over `rows[1:end]`,
      with `sentinel` in place of an empty result. */
  function ParseWindow(rows: seq<TableRow>, end: nat, read: TableRow -> RowOutcome, sentinel: string): (r: Parsed)
    requires end >= 2 && '|' !in sentinel
    requires forall row :: read(row).Emit? ==> '|' in read(row).line
    ensures r.Lines? ==> 1 <= |r.lines| <= end - 1
    ensures r.Raised? <==> exists i :: 1 <= i < |rows| && i < end && read(rows[i]).Fault?
    ensures r == Lines([sentinel]) <==> forall i :: 1 <= i < |rows| && i < end ==> read(rows[i]).Skip?
    ensures var w := Collect(Slice(rows, 1, end), read);
            w.Lines? && w.lines != [] ==> r == w
  {
    var w := Slice(rows, 1, end);
    WindowCollect(rows, end, read);
    NoSentinelLine(w, read, sentinel);
    match Collect(w, read)
    case Raised => Raised
    case Lines(ls) => if ls == [] then Lines([sentinel]) else Lines(ls)
  }

  /** No sentinel line holds the `|` that every match line holds. */
  lemma Unpiped()
    ensures '|' !in NoCounterStrikeMatches && '|' !in NoValorantMatches && '|' !in NoLeagueMatches
  {
  }

  lemma PipedLines(read: TableRow -> RowOutcome)
    requires read == CounterStrikeRow || read == ValorantRow || read == LeagueRow
    ensures forall row :: read(row).Emit? ==> '|' in read(row).line
  {
  }

  // ---------------------------------------------------------------------
  // Counter-Strike
  // ---------------------------------------------------------------------

  /** The line the Counter-Strike and Valorant parsers print for a match:
      `date | team1 vs team2 - event | result`. It starts with the date and
      ends with the result. */
  function ScoreLine(date: string, team1: string, team2: string, event: string, result: string): (line: string)
    ensures |line| > |date| && line[..|date|] == date
    ensures |line| >= |result| && line[|line| - |result|..] == result
    ensures '|' in line
  {
    var head := date + " | " + team1 + " vs " + team2 + " - " + event + " | ";
    assert (head + result)[..|date|] == head[..|date|];
    assert (head + result)[|date| + 1] == '|';
    assert (head + result)[|head|..] == result;
    head + result
  }

  /** One row of `parse_csgo_matches`. Rows with fewer than five cells are
      skipped; the row then reads cells 5 to 7, so a row of five to seven
      cells raises. The opponent is cell 8 when there is one, else "TBD". */
  function CounterStrikeRow(row: TableRow): (o: RowOutcome)
    ensures o.Skip? <==> |row.cells| < 5
    ensures o.Fault? <==> 5 <= |row.cells| < 8
    ensures o.Emit? ==> |o.line| > |row.cells[0]| && o.line[..|row.cells[0]|] == row.cells[0]
    ensures o.Emit? ==> '|' in o.line
  {
    var cols := row.cells;
    if |cols| < 5 then Skip
    else if |cols| < 8 then Fault
    else
      var team2 := if |cols| > 8 then cols[8] else Tbd;
      Emit(ScoreLine(cols[0], cols[6], team2, cols[5], ParseMatchResult(cols[7])))
  }

  /** `parse_csgo_matches`: the lines of rows 1 to 5, or the sentinel line
      when there is no table or none of those rows has five cells. */
  function ParseCounterStrike(table: Option<seq<TableRow>>): (r: Parsed)
    ensures r.Lines? ==> 1 <= |r.lines| <= ShortWindowEnd - 1
    ensures r.Raised? <==> table.Some? && exists i :: 1 <= i < |table.value| && i < ShortWindowEnd
                                                  && 5 <= |table.value[i].cells| < 8
    ensures table.None? ==> r == Lines([NoCounterStrikeMatches])
    ensures table.Some? ==>
              (r == Lines([NoCounterStrikeMatches])
               <==> forall i :: 1 <= i < |table.value| && i < ShortWindowEnd ==> |table.value[i].cells| < 5)
    ensures table.Some? ==>
              var w := Collect(Slice(table.value, 1, ShortWindowEnd), CounterStrikeRow);
              w.Lines? && w.lines != [] ==> r == w
  {
    match table
    case None => Lines([NoCounterStrikeMatches])
    case Some(rows) =>
      Unpiped();
      PipedLines(CounterStrikeRow);
      ParseWindow(rows, ShortWindowEnd, CounterStrikeRow, NoCounterStrikeMatches)
  }

  /** A row of a played match, scored the way the wiki prints integers, ends
      with the score followed by FURIA's verdict on it. */
  lemma CounterStrikeScore(row: TableRow, x: int, y: int)
    requires |row.cells| >= 8
    requires row.cells[7] == IntToString(x) + ":" + IntToString(y)
    requires Printable(x) && Printable(y)
    ensures CounterStrikeRow(row).Emit?
    ensures var line := CounterStrikeRow(row).line;
            var tail := row.cells[7] + Verdict(x, y);
            |line| >= |tail| && line[|line| - |tail|..] == tail
  {
    ScoreOfIntegers(x, y);
  }

  /** A row of nine cells names its opponent; one of eight plays "TBD". */
  lemma CounterStrikeOpponent(row: TableRow)
    requires |row.cells| >= 8
    ensures var team2 := if |row.cells| > 8 then row.cells[8] else Tbd;
            CounterStrikeRow(row).line
            == row.cells[0] + " | " + row.cells[6] + " vs " + team2 + " - " + row.cells[5]
               + " | " + ParseMatchResult(row.cells[7])
  {
  }

  /** A single row of six cells in the window spoils the whole page, whatever
      the other rows hold. */
  lemma ShortCounterStrikeRowRaises(rows: seq<TableRow>, k: nat)
    requires 1 <= k < |rows| && k < ShortWindowEnd && |rows[k].cells| == 6
    ensures ParseCounterStrike(Some(rows)) == Raised
  {
  }

  // ---------------------------------------------------------------------
  // Valorant
  // ---------------------------------------------------------------------

  /** One row of `parse_valorant_matches`. Rows with fewer than four cells
      are skipped; the row then reads cells 4 and 5, so a row of four or five
      cells raises. FURIA is always the first team; the opponent is cell 6
      when there is one, else "TBD". */
  function ValorantRow(row: TableRow): (o: RowOutcome)
    ensures o.Skip? <==> |row.cells| < 4
    ensures o.Fault? <==> 4 <= |row.cells| < 6
    ensures o.Emit? ==> |o.line| > |row.cells[0]| && o.line[..|row.cells[0]|] == row.cells[0]
    ensures o.Emit? ==> '|' in o.line
  {
    var cols := row.cells;
    if |cols| < 4 then Skip
    else if |cols| < 6 then Fault
    else
      var team2 := if |cols| > 6 then cols[6] else Tbd;
      Emit(ScoreLine(cols[0], "FURIA", team2, cols[4], ParseMatchResult(cols[5])))
  }

  /** `parse_valorant_matches`: the lines of rows 1 to 5, or the sentinel
      line when there is no table or none of those rows has four cells. */
  function ParseValorant(table: Option<seq<TableRow>>): (r: Parsed)
    ensures r.Lines? ==> 1 <= |r.lines| <= ShortWindowEnd - 1
    ensures r.Raised? <==> table.Some? && exists i :: 1 <= i < |table.value| && i < ShortWindowEnd
                                                  && 4 <= |table.value[i].cells| < 6
    ensures table.None? ==> r == Lines([NoValorantMatches])
    ensures table.Some? ==>
              (r == Lines([NoValorantMatches])
               <==> forall i :: 1 <= i < |table.value| && i < ShortWindowEnd ==> |table.value[i].cells| < 4)
    ensures table.Some? ==>
              var w := Collect(Slice(table.value, 1, ShortWindowEnd), ValorantRow);
              w.Lines? && w.lines != [] ==> r == w
  {
    match table
    case None => Lines([NoValorantMatches])
    case Some(rows) =>
      Unpiped();
      PipedLines(ValorantRow);
      ParseWindow(rows, ShortWindowEnd, ValorantRow, NoValorantMatches)
  }

  /** A row of seven cells names its opponent; one of six plays "TBD". FURIA
      is always the first team, and the event is cell 4. */
  lemma ValorantOpponent(row: TableRow)
    requires |row.cells| >= 6
    ensures var team2 := if |row.cells| > 6 then row.cells[6] else Tbd;
            ValorantRow(row).line
            == row.cells[0] + " | " + "FURIA" + " vs " + team2 + " - " + row.cells[4]
               + " | " + ParseMatchResult(row.cells[5])
  {
  }

  /** A Valorant row of a played match ends with its score followed by
      FURIA's verdict on it. */
  lemma ValorantScore(row: TableRow, x: int, y: int)
    requires |row.cells| >= 6
    requires row.cells[5] == IntToString(x) + ":" + IntToString(y)
    requires Printable(x) && Printable(y)
    ensures ValorantRow(row).Emit?
    ensures var line := ValorantRow(row).line;
            var tail := row.cells[5] + Verdict(x, y);
            |line| >= |tail| && line[|line| - |tail|..] == tail
  {
    ScoreOfIntegers(x, y);
  }

  // ---------------------------------------------------------------------
  // League of Legends
  // ---------------------------------------------------------------------

  /** The result a League row shows, read from its classes: a win class
      takes precedence over a loss class. */
  function LeagueResult(classes: seq<string>): (r: string)
    ensures r == LeagueWin <==> WinClass in classes
    ensures r == LeagueLoss <==> WinClass !in classes && LoseClass in classes
    ensures r == LeagueNoResult <==> WinClass !in classes && LoseClass !in classes
  {
    if WinClass in classes then LeagueWin
    else if LoseClass in classes then LeagueLoss
    else LeagueNoResult
  }

  /** One row of `parse_lol_matches`: rows with at least five cells give a
      line, with the opponent cut to 30 characters; no row raises. */
  function LeagueRow(row: TableRow): (o: RowOutcome)
    ensures !o.Fault?
    ensures o.Emit? <==> |row.cells| >= 5
    ensures o.Emit? ==> var res := LeagueResult(row.classes);
                        |o.line| > |res| && o.line[|o.line| - |res|..] == res
    ensures o.Emit? ==> '|' in o.line
  {
    var cols := row.cells;
    if |cols| >= 5 then
      var result := LeagueResult(row.classes);
      var line := cols[0] + " | " + cols[3] + " - Furia vs " + Take(cols[4], OpponentWidth)
                  + " | " + result;
      assert line[|line| - |result|..] == result;
      assert line[|cols[0]| + 1] == '|';
      Emit(line)
    else Skip
  }

  /** `parse_lol_matches`: the lines of rows 1 to 9; one sentinel when there
      is no table and another when none of those rows has five cells. */
  function ParseLeague(table: Option<seq<TableRow>>): (r: Parsed)
    ensures r.Lines? && 1 <= |r.lines| <= LeagueWindowEnd - 1
    ensures table.None? ==> r == Lines([NoLeagueTable])
    ensures table.Some? ==>
              (r == Lines([NoLeagueMatches])
               <==> forall i :: 1 <= i < |table.value| && i < LeagueWindowEnd ==> |table.value[i].cells| < 5)
    ensures table.Some? ==>
              var w := Collect(Slice(table.value, 1, LeagueWindowEnd), LeagueRow);
              w.Lines? && w.lines != [] ==> r == w
  {
    match table
    case None => Lines([NoLeagueTable])
    case Some(rows) =>
      Unpiped();
      PipedLines(LeagueRow);
      ParseWindow(rows, LeagueWindowEnd, LeagueRow, NoLeagueMatches)
  }

  /** The opponent shown in a League line never exceeds 30 characters, and a
      shorter name is shown whole. */
  lemma LeagueOpponentCut(row: TableRow)
    requires |row.cells| >= 5
    ensures var opp := Take(row.cells[4], OpponentWidth);
            |opp| <= OpponentWidth
            && (|row.cells[4]| <= OpponentWidth ==> opp == row.cells[4])
            && LeagueRow(row).line
               == row.cells[0] + " | " + row.cells[3] + " - Furia vs " + opp + " | "
                  + LeagueResult(row.classes)
  {
  }

  // ---------------------------------------------------------------------
  // Dispatch
  // ---------------------------------------------------------------------

  /** `parse_matches`: the parser of the game's code, or a sentinel line for
      a game without one. */
  function ParseMatches(table: Option<seq<TableRow>>, game: string): (r: Parsed)
    ensures game == CounterStrikeCode ==> r == ParseCounterStrike(table)
    ensures game == ValorantCode ==> r == ParseValorant(table)
    ensures game == LeagueCode ==> r == ParseLeague(table)
    ensures game !in GameTeams ==> r == Lines([NoParser])
    ensures r.Lines? ==> 1 <= |r.lines| <= LeagueWindowEnd - 1
  {
    if game == CounterStrikeCode then ParseCounterStrike(table)
    else if game == ValorantCode then ParseValorant(table)
    else if game == LeagueCode then ParseLeague(table)
    else Lines([NoParser])
  }

  /** Only the League parser never raises: a table row shape exists that
      makes each of the other two raise. */
  lemma OnlyLeagueNeverRaises(table: Option<seq<TableRow>>)
    ensures ParseMatches(table, LeagueCode).Lines?
    ensures ParseMatches(Some([TableRow([], []), TableRow([], ["", "", "", "", ""])]), CounterStrikeCode) == Raised
    ensures ParseMatches(Some([TableRow([], []), TableRow([], ["", "", "", ""])]), ValorantCode) == Raised
  {
    var cs := [TableRow([], []), TableRow([], ["", "", "", "", ""])];
    assert 5 <= |cs[1].cells| < 8;
    var va := [TableRow([], []), TableRow([], ["", "", "", ""])];
    assert 4 <= |va[1].cells| < 6;
  }

  /** The loop over the window `rows[1:end]` raises exactly when one of the
      rows from 1 up to `end` faults, and emits nothing exactly when they are
      all skipped. */
  lemma WindowCollect(rows: seq<TableRow>, end: nat, read: TableRow -> RowOutcome)
    requires end >= 1
    ensures var r := Collect(Slice(rows, 1, end), read);
            && (r.Raised? <==> exists i :: 1 <= i < |rows| && i < end && read(rows[i]).Fault?)
            && (r.Lines? ==> |r.lines| <= end - 1)
            && (r.Lines? ==> (r.lines == [] <==> forall i :: 1 <= i < |rows| && i < end ==> read(rows[i]).Skip?))
  {
    var w := Slice(rows, 1, end);
    assert forall i :: 1 <= i < |rows| && i < end ==> i - 1 < |w| && w[i - 1] == rows[i];
    assert forall j :: 0 <= j < |w| ==> w[j] == rows[j + 1];
  }

  /** When every row emits a line with `|` in it, a sentinel without `|`
      is not a one-line result of the loop. */
  lemma {:induction false} NoSentinelLine(rows: seq<TableRow>, read: TableRow -> RowOutcome, sentinel: string)
    requires '|' !in sentinel
    requires forall i :: 0 <= i < |rows| && read(rows[i]).Emit? ==> '|' in read(rows[i]).line
    ensures Collect(rows, read) != Lines([sentinel])
  {
    if rows != [] {
      forall i | 0 <= i < |rows[1..]| && read(rows[1..][i]).Emit?
        ensures '|' in read(rows[1..][i]).line
      {
        assert rows[1..][i] == rows[i + 1];
      }
      NoSentinelLine(rows[1..], read, sentinel);
      var rest := Collect(rows[1..], read);
      assert Collect(rows, read) == Then(read(rows[0]), rest);
      if read(rows[0]).Emit? && rest.Lines? {
        assert Then(read(rows[0]), rest).lines[0] == read(rows[0]).line;
      }
    }
  }

  /** A window whose rows all emit gives their lines one for one, in row
      order. */
  lemma WindowAllEmit(rows: seq<TableRow>, end: nat, read: TableRow -> RowOutcome)
    requires end >= 1
    requires forall i :: 1 <= i < |rows| && i < end ==> read(rows[i]).Emit?
    ensures var w := Collect(Slice(rows, 1, end), read);
            && w.Lines?
            && |w.lines| == |Slice(rows, 1, end)|
            && forall j :: 0 <= j < |w.lines| ==> read(rows[j + 1]) == Emit(w.lines[j])
  {
    var ws := Slice(rows, 1, end);
    assert forall j :: 0 <= j < |ws| ==> ws[j] == rows[j + 1];
    CollectAllEmit(ws, read);
  }

  /** Rows 1 to 5 of eight cells or more are listed one line each, in
      table order. */
  lemma PlayedCounterStrikeListed(rows: seq<TableRow>)
    requires |rows| >= 2
    requires forall i :: 1 <= i < |rows| && i < ShortWindowEnd ==> |rows[i].cells| >= 8
    ensures var r := ParseCounterStrike(Some(rows));
            && r.Lines?
            && |r.lines| == (if |rows| < ShortWindowEnd then |rows| else ShortWindowEnd) - 1
            && forall j :: 0 <= j < |r.lines| ==> CounterStrikeRow(rows[j + 1]) == Emit(r.lines[j])
  {
    WindowAllEmit(rows, ShortWindowEnd, CounterStrikeRow);
  }

  /** Rows 1 to 5 of six cells or more are listed one line each, in table
      order. */
  lemma PlayedValorantListed(rows: seq<TableRow>)
    requires |rows| >= 2
    requires forall i :: 1 <= i < |rows| && i < ShortWindowEnd ==> |rows[i].cells| >= 6
    ensures var r := ParseValorant(Some(rows));
            && r.Lines?
            && |r.lines| == (if |rows| < ShortWindowEnd then |rows| else ShortWindowEnd) - 1
            && forall j :: 0 <= j < |r.lines| ==> ValorantRow(rows[j + 1]) == Emit(r.lines[j])
  {
    WindowAllEmit(rows, ShortWindowEnd, ValorantRow);
  }

  /** Rows 1 to 9 of five cells or more are listed one line each, in table
      order. */
  lemma PlayedLeagueListed(rows: seq<TableRow>)
    requires |rows| >= 2
    requires forall i :: 1 <= i < |rows| && i < LeagueWindowEnd ==> |rows[i].cells| >= 5
    ensures var r := ParseLeague(Some(rows));
            && r.Lines?
            && |r.lines| == (if |rows| < LeagueWindowEnd then |rows| else LeagueWindowEnd) - 1
            && forall j :: 0 <= j < |r.lines| ==> LeagueRow(rows[j + 1]) == Emit(r.lines[j])
  {
    WindowAllEmit(rows, LeagueWindowEnd, LeagueRow);
  }
}
