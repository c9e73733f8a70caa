/**
 * The roster extractor `parse_players` (app.py). The parsed page is reduced
 * to what the extractor reads from it: the `tr.Player` rows of the
 * `roster-card` table, each with its `ID` and `Position` cells.
 */
module Roster {
  import opened Wrappers
  import opened Text

  /** The note the wiki appends to the link title of a player without a page. */
  const MissingPage: string := " (page does not exist)"
  const NoPlayers: string := "Nenhum jogador encontrado"
  const MaxPlayers: nat := 10

  /** The `ID` cell of a row. `link` is present when the cell holds an
      `<a href>`, and is then that link's `title` attribute ("" when it has
      none); `bold` is the stripped text of the cell's first `<b>`, if any. */
  datatype IdCell = IdCell(link: Option<string>, bold: Option<string>)

  /** One `tr.Player` row: its `ID` cell and the stripped text of its
      `Position` cell, each when the row has it. */
  datatype PlayerRow = PlayerRow(id: Option<IdCell>, position: Option<string>)

  /** The `name` the extractor settles on: the link title without the
      missing-page note, otherwise the bold text; `None` when neither exists. */
  function PlayerName(row: PlayerRow): (r: Option<string>)
    ensures r.None? <==> row.id.None? || (row.id.value.link.None? && row.id.value.bold.None?)
    ensures row.id.Some? && row.id.value.link.None? ==> r == row.id.value.bold
    ensures row.id.Some? && row.id.value.link.Some? ==>
              var title := row.id.value.link.value;
              && |r.value| <= |title|
              && (forall c :: c in r.value ==> c in title)
              && ((forall i :: 0 <= i < |title| ==> !OccursAt(title, MissingPage, i)) ==> r.value == title)
  {
    match row.id
    case None => None
    case Some(cell) =>
      match cell.link
      case Some(title) => TitleCleaned(title); Some(Replace(title, MissingPage, ""))
      case None => cell.bold
  }

  /** Dropping the missing-page note only removes characters, and leaves a
      title without the note as it is. */
  lemma TitleCleaned(title: string)
    ensures var name := Replace(title, MissingPage, "");
            && |name| <= |title|
            && (forall c :: c in name ==> c in title)
            && ((forall i :: 0 <= i < |title| ==> !OccursAt(title, MissingPage, i)) ==> name == title)
  {
    ReplaceNoLonger(title, MissingPage, "");
    ReplaceChars(title, MissingPage, "");
    if forall i :: 0 <= i < |title| ==> !OccursAt(title, MissingPage, i) {
      ReplaceAbsent(title, MissingPage, "");
    }
  }

  /** The position marker cleaned up: the text after the last `.`, with
      `Role:`, `(` and `)` removed, stripped, `&nbsp;` turned into a space and
      stripped again. It never holds `.`, `(` or `)` and has no surrounding
      whitespace. */
  function CleanPosition(text: string): (r: string)
    ensures '.' !in r && '(' !in r && ')' !in r
    ensures r == [] || (!IsSpace(r[0]) && !IsSpace(r[|r| - 1]))
  {
    var afterDot := LastPiece(text, '.');
    var noRole := Replace(afterDot, "Role:", "");
    var noOpen := Replace(noRole, "(", "");
    var noClose := Replace(noOpen, ")", "");
    var trimmed := Strip(noClose);
    var spaced := Replace(trimmed, "&nbsp;", " ");
    var r := Strip(spaced);
    ReplaceChars(afterDot, "Role:", "");
    ReplaceChars(noRole, "(", "");
    RemoveCharGone(noRole, '(');
    ReplaceChars(noOpen, ")", "");
    RemoveCharGone(noOpen, ')');
    ReplaceChars(trimmed, "&nbsp;", " ");
    CleanChain(afterDot, noRole, noOpen, noClose, trimmed, spaced, r);
    r
  }

  /** The character facts of each cleaning step, chained: none of the steps
      brings back a `.`, `(` or `)` once it is gone. */
  lemma CleanChain(afterDot: string, noRole: string, noOpen: string, noClose: string,
                   trimmed: string, spaced: string, r: string)
    requires '.' !in afterDot
    requires forall c :: c in noRole ==> c in afterDot || c in "Role:"
    requires (forall c :: c in noOpen ==> c in noRole || c in "") && '(' !in noOpen
    requires (forall c :: c in noClose ==> c in noOpen || c in "") && ')' !in noClose
    requires forall c :: c in trimmed ==> c in noClose
    requires forall c :: c in spaced ==> c in trimmed || c in " "
    requires forall c :: c in r ==> c in spaced
    ensures '.' !in r && '(' !in r && ')' !in r
  {
  }

  /** A plain role name passes the clean-up unchanged: text without `.`,
      `(`, `)`, `:` or `&` and without surrounding whitespace. */
  lemma CleanPositionKeeps(text: string)
    requires '.' !in text && '(' !in text && ')' !in text && ':' !in text && '&' !in text
    requires text == [] || (!IsSpace(text[0]) && !IsSpace(text[|text| - 1]))
    ensures CleanPosition(text) == text
  {
    var afterDot := LastPiece(text, '.');
    assert afterDot == text;
    NeverOccurs(text, "Role:", 4);
    ReplaceAbsent(text, "Role:", "");
    NeverOccurs(text, "(", 0);
    ReplaceAbsent(text, "(", "");
    NeverOccurs(text, ")", 0);
    ReplaceAbsent(text, ")", "");
    NeverOccurs(text, "&nbsp;", 0);
    ReplaceAbsent(text, "&nbsp;", " ");
  }

  /** A pattern with a character the text lacks never occurs in it. */
  lemma NeverOccurs(s: string, pat: string, k: nat)
    requires k < |pat| && pat[k] !in s
    ensures forall i :: 0 <= i < |s| ==> !OccursAt(s, pat, i)
  {
    forall i | 0 <= i < |s|
      ensures !OccursAt(s, pat, i)
    {
      if i + |pat| <= |s| {
        assert s[i..i + |pat|][k] == s[i + k];
      }
    }
  }

  /** A position marker as the wiki writes it, `Role: (X)`, cleans up to
      the role `X`. */
  lemma RoleMarkerCleaned(role: string)
    requires role != [] && !IsSpace(role[0]) && !IsSpace(role[|role| - 1])
    requires '.' !in role && '(' !in role && ')' !in role && ':' !in role && '&' !in role
    ensures CleanPosition("Role: (" + role + ")") == role
  {
    var text := "Role: (" + role + ")";
    NoDotInMarker(role);
    var afterDot := LastPiece(text, '.');
    assert afterDot == text;
    DropRole(role);
    DropOpen(role);
    DropClose(role);
    assert " " + role + "" == " " + role;
    StripPadded(" ", role, "");
    NeverOccurs(role, "&nbsp;", 0);
    ReplaceAbsent(role, "&nbsp;", " ");
  }

  lemma NoDotInMarker(role: string)
    requires '.' !in role
    ensures '.' !in "Role: (" + role + ")"
  {
    var text := "Role: (" + role + ")";
    assert forall i :: 0 <= i < |text| ==> text[i] in "Role: ()" || text[i] in role;
  }

  lemma DropRole(role: string)
    requires ':' !in role
    ensures Replace("Role: (" + role + ")", "Role:", "") == " (" + role + ")"
  {
    var rest := " (" + role + ")";
    assert "Role: (" + role + ")" == "Role:" + rest;
    assert forall i :: 0 <= i < |rest| ==> rest[i] in " ()" || rest[i] in role;
    NeverOccurs(rest, "Role:", 4);
    ReplaceAbsent(rest, "Role:", "");
    ReplaceAtFront("Role:", rest, "");
  }

  lemma DropOpen(role: string)
    requires '(' !in role
    ensures Replace(" (" + role + ")", "(", "") == " " + role + ")"
  {
    var tail := role + ")";
    var paren := "(" + tail;
    assert Replace(paren, "(", "") == tail by {
      ReplaceAtFront("(", tail, "");
      NeverOccurs(tail, "(", 0);
      ReplaceAbsent(tail, "(", "");
      assert "" + tail == tail;
    }
    NeverOccurs(" ", "(", 0);
    ReplaceSkipsPrefix(" ", paren, "(", "");
    assert " (" + role + ")" == " " + paren;
    assert " " + role + ")" == " " + tail;
  }

  lemma DropClose(role: string)
    requires ')' !in role
    ensures Replace(" " + role + ")", ")", "") == " " + role
  {
    var head := " " + role;
    NeverOccurs(head, ")", 0);
    ReplaceSkipsPrefix(head, ")", ")", "");
    assert ")" == ")" + [];
    ReplaceAtFront(")", [], "");
    assert head + [] == head;
  }

  /** The cleaned position of a row, "" when it has no `Position` cell. */
  function Position(row: PlayerRow): string
  {
    match row.position
    case None => ""
    case Some(text) => CleanPosition(text)
  }

  /** The line a row contributes, if its name is non-empty: `name - (pos)`,
      or just `name` when the cleaned position is empty. */
  function Entry(row: PlayerRow): (r: Option<string>)
    ensures r.None? <==> PlayerName(row).None? || PlayerName(row).value == []
    ensures r.Some? ==> r.value != []
    ensures r.Some? ==>
              var name := PlayerName(row).value;
              && (Position(row) == [] ==> r.value == name)
              && (Position(row) != [] ==> r.value == name + " - (" + Position(row) + ")")
  {
    match PlayerName(row)
    case None => None
    case Some(name) =>
      if name == [] then None
      else if Position(row) == [] then Some(name)
      else Some(name + " - (" + Position(row) + ")")
  }

  /** The lines of all rows, in row order (the `players` list). */
  function Entries(rows: seq<PlayerRow>): (r: seq<string>)
    ensures |r| <= |rows|
    ensures forall i :: 0 <= i < |r| ==> r[i] != []
    ensures r == [] <==> forall i :: 0 <= i < |rows| ==> Entry(rows[i]).None?
  {
    SomesAll(rows, Entry, (line: string) => line != []);
    Somes(rows, Entry)
  }

  /** `parse_players`: the first ten lines, or the single sentinel line when
      there is no roster table or no row yields a name. */
  function ParsePlayers(table: Option<seq<PlayerRow>>): (r: seq<string>)
    ensures 1 <= |r| <= MaxPlayers
    ensures table.None? ==> r == [NoPlayers]
    ensures table.Some? && (forall i :: 0 <= i < |table.value| ==> Entry(table.value[i]).None?)
            ==> r == [NoPlayers]
    ensures table.Some? && (exists i :: 0 <= i < |table.value| && Entry(table.value[i]).Some?)
            ==> |r| == (if |Entries(table.value)| <= MaxPlayers then |Entries(table.value)| else MaxPlayers)
                && r == Entries(table.value)[..|r|]
  {
    match table
    case None => [NoPlayers]
    case Some(rows) =>
      var players := Entries(rows);
      if players == [] then [NoPlayers] else Take(players, MaxPlayers)
  }

  /** One row gives its line, if it has one. */
  lemma EntriesOne(row: PlayerRow)
    ensures Entries([row]) == if Entry(row).Some? then [Entry(row).value] else []
  {
    SomesOne(row, Entry);
  }

  /** Rows that all carry a name give their lines one for one, in order. */
  lemma EntriesAllNamed(rows: seq<PlayerRow>)
    requires forall i :: 0 <= i < |rows| ==> Entry(rows[i]).Some?
    ensures |Entries(rows)| == |rows|
    ensures forall i :: 0 <= i < |rows| ==> Entries(rows)[i] == Entry(rows[i]).value
  {
    SomesAllSome(rows, Entry);
  }

  /** The lines of two runs of rows are the lines of each, in order. */
  lemma EntriesAppend(a: seq<PlayerRow>, b: seq<PlayerRow>)
    ensures Entries(a + b) == Entries(a) + Entries(b)
  {
    SomesAppend(a, b, Entry);
  }

  /** A row whose link title carries the missing-page note is listed under
      the title without the note. */
  lemma MissingPageNoteDropped(name: string, bold: Option<string>, position: Option<string>)
    requires forall i :: 0 <= i < |name| ==> !OccursAt(name + MissingPage, MissingPage, i)
    ensures PlayerName(PlayerRow(Some(IdCell(Some(name + MissingPage), bold)), position)) == Some(name)
  {
    ReplaceSkipsPrefix(name, MissingPage, MissingPage, "");
    assert MissingPage[..|MissingPage|] == MissingPage;
    assert MissingPage[|MissingPage|..] == [];
    assert Replace(MissingPage, MissingPage, "") == "" + Replace([], MissingPage, "");
    assert Replace(MissingPage, MissingPage, "") == [];
    assert name + [] == name;
  }

  /** A title with a parenthesised note of its own before the missing-page
      note loses only the latter. */
  lemma QualifiedTitleExample()
    ensures PlayerName(PlayerRow(Some(IdCell(Some("Name (Brazilian player)" + MissingPage), None)), None))
            == Some("Name (Brazilian player)")
  {
    var name := "Name (Brazilian player)";
    forall i | 0 <= i < |name|
      ensures !OccursAt(name + MissingPage, MissingPage, i)
    {
      NoteLetters(name + MissingPage, i);
    }
    MissingPageNoteDropped(name, None, None);
  }

  /** Where the note occurs, its third and fourth letters are there. */
  lemma NoteLetters(s: string, i: nat)
    ensures OccursAt(s, MissingPage, i) ==> s[i + 2] == 'p' && s[i + 3] == 'a'
  {
    if OccursAt(s, MissingPage, i) {
      assert s[i..i + |MissingPage|][2] == s[i + 2];
      assert s[i..i + |MissingPage|][3] == s[i + 3];
    }
  }

  /** A link title without the note is used as it is. */
  lemma PlainTitleKept(title: string, bold: Option<string>, position: Option<string>)
    requires forall i :: 0 <= i < |title| ==> !OccursAt(title, MissingPage, i)
    ensures PlayerName(PlayerRow(Some(IdCell(Some(title), bold)), position)) == Some(title)
  {
    ReplaceAbsent(title, MissingPage, "");
  }
}
