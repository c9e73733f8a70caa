/**
 * The menu dialogue of `handle_bot_command` (app.py): per user, a
 * conversation goes from the game menu to the team menu to the data menu,
 * and the data choice answers with the requested lines and ends the
 * conversation. The table of conversations (`user_states`) is passed in
 * and returned; the data source is a parameter.
 */
module Engine {
  import opened Wrappers
  import opened Text
  import opened Catalog
  import opened Fetcher

  /** Where a user's conversation stands (the `step` of its state). */
  datatype Conv =
    | ChoosingGame
    | ChoosingTeam(gameCode: string, gameName: string, teams: seq<string>)
    | ChoosingData(gameCode: string, gameName: string, team: string)

  datatype Reply = Reply(message: string, isFinal: bool)

  /** The reply to one command and the conversation table after it. */
  datatype Turn = Turn(reply: Reply, states: map<string, Conv>)

  const Ended: string := "❌ Conversa com o bot encerrada."
  const Closed: string := "❌ Conversa encerrada."
  const ExitOption: string := "🔴 0. Sair"
  const ExitLine: string := "\n\n" + ExitOption
  const GameMenu: string := "🎮 **Escolha um jogo**:\n1. CS2\n2. Valorant\n3. League of Legends" + ExitLine
  const BadGame: string := "⚠️ Opção inválida! Escolha 1, 2 ou 3."
  const NotANumber: string := "⚠️ Opção inválida! Digite um número."
  const BadTeam: string := "⚠️ Opção inválida! Escolha um número da lista."
  const BadData: string := "⚠️ Opção inválida! Escolha 1 ou 2."
  const CommandError: string := "⚠️ Erro ao processar comando!"
  const FooterText: string := "🔚 Digite @FuriaBot para novo comando"
  const Footer: string := "\n\n" + FooterText

  /** `command.lower() in ['0', 'sair']`. */
  predicate IsCancel(cmd: string)
  {
    Lower(cmd) == "0" || Lower(cmd) == "sair"
  }

  /** The cancel words are `0` and `sair` in any mix of letter cases. */
  lemma CancelSpellings(cmd: string)
    ensures IsCancel(cmd) <==>
              cmd == "0"
              || (|cmd| == 4 && (cmd[0] == 's' || cmd[0] == 'S') && (cmd[1] == 'a' || cmd[1] == 'A')
                  && (cmd[2] == 'i' || cmd[2] == 'I') && (cmd[3] == 'r' || cmd[3] == 'R'))
  {
    if |cmd| == 1 {
      assert Lower(cmd) == [LowerChar(cmd[0])];
    } else if |cmd| == 4 {
      assert Lower(cmd) == [LowerChar(cmd[0]), LowerChar(cmd[1]), LowerChar(cmd[2]), LowerChar(cmd[3])] by {
        assert Lower(cmd[3..]) == [LowerChar(cmd[3])];
        assert Lower(cmd[2..]) == [LowerChar(cmd[2])] + Lower(cmd[3..]);
        assert Lower(cmd[1..]) == [LowerChar(cmd[1])] + Lower(cmd[2..]);
      }
    }
  }

  // ---------------------------------------------------------------------
  // Messages
  // ---------------------------------------------------------------------

  /** The menu lines `i. team`, numbered from `first`. */
  function Numbered(teams: seq<string>, first: int): (r: seq<string>)
    ensures |r| == |teams|
    ensures forall i :: 0 <= i < |teams| ==> r[i] == IntToString(first + i) + ". " + teams[i]
  {
    if teams == [] then []
    else [IntToString(first) + ". " + teams[0]] + Numbered(teams[1..], first + 1)
  }

  /** The first line of the team menu. */
  function TeamHeading(gameName: string): string
  {
    "🏆 **Times disponíveis para " + gameName + "**:"
  }

  /** The team menu of a game. */
  function TeamMenu(gameName: string, teams: seq<string>): string
  {
    TeamHeading(gameName) + "\n" + Join(Numbered(teams, 1), "\n") + ExitLine
  }

  const PlayersOption: string := "1. 👥 Ver jogadores"
  const MatchesOption: string := "2. 📅 Últimas partidas"

  /** The first line of the data menu. */
  function DataHeading(team: string, gameName: string): string
  {
    "📋 **Opções para " + team + " - " + gameName + "**:"
  }

  /** The data menu of a team. */
  function DataMenu(team: string, gameName: string): string
  {
    DataHeading(team, gameName) + "\n" + PlayersOption + "\n" + MatchesOption + ExitLine
  }

  /** The items of a list, each behind a bullet. */
  function Bulleted(items: seq<string>): (r: seq<string>)
    ensures |r| == |items|
    ensures forall i :: 0 <= i < |items| ==> r[i] == "• " + items[i]
  {
    if items == [] then [] else ["• " + items[0]] + Bulleted(items[1..])
  }

  /** The first line of the closing answer, naming the data, team and game. */
  function AnswerHeading(kind: DataKind, team: string, gameName: string): string
  {
    match kind
    case Players => "👥 **Jogadores " + team + " (" + gameName + ")**:"
    case Matches => "📅 **Últimas partidas " + team + " (" + gameName + ")**:"
  }

  /** The closing answer: the heading, the bulleted lines and the footer. */
  function DataAnswer(kind: DataKind, team: string, gameName: string, lines: seq<string>): string
  {
    AnswerHeading(kind, team, gameName) + "\n" + Join(Bulleted(lines), "\n") + Footer
  }

  /** The headings hold no line break beyond those in the names they show. */
  lemma TeamHeadingUnbroken(gameName: string)
    requires '\n' !in gameName
    ensures '\n' !in TeamHeading(gameName)
  {
  }

  lemma DataHeadingUnbroken(team: string, gameName: string)
    requires '\n' !in team && '\n' !in gameName
    ensures '\n' !in DataHeading(team, gameName)
  {
  }

  lemma AnswerHeadingUnbroken(kind: DataKind, team: string, gameName: string)
    requires '\n' !in team && '\n' !in gameName
    ensures '\n' !in AnswerHeading(kind, team, gameName)
  {
  }

  /** The fixed lines hold no line break. */
  lemma ExitUnbroken()
    ensures '\n' !in ExitOption
  {
  }

  lemma FooterUnbroken()
    ensures '\n' !in FooterText
  {
  }

  lemma OptionsUnbroken()
    ensures '\n' !in PlayersOption && '\n' !in MatchesOption
  {
  }

  /** Numbering and bullets add no line break to the lines they dress. */
  lemma NumberedUnbroken(teams: seq<string>, first: int)
    requires forall i :: 0 <= i < |teams| ==> '\n' !in teams[i]
    ensures forall i :: 0 <= i < |teams| ==> '\n' !in Numbered(teams, first)[i]
  {
    forall i | 0 <= i < |teams|
      ensures '\n' !in Numbered(teams, first)[i]
    {
      NumeralWithout(first + i, '\n');
    }
  }

  lemma BulletedUnbroken(lines: seq<string>)
    requires forall i :: 0 <= i < |lines| ==> '\n' !in lines[i]
    ensures forall i :: 0 <= i < |lines| ==> '\n' !in Bulleted(lines)[i]
  {
  }

  /** Split into lines, the team menu is its heading, one numbered line per
      team (an empty line when there are none), a blank line and the exit
      option. */
  lemma TeamMenuLines(gameName: string, teams: seq<string>)
    requires '\n' !in gameName
    requires forall i :: 0 <= i < |teams| ==> '\n' !in teams[i]
    ensures Split(TeamMenu(gameName, teams), '\n')
              == [TeamHeading(gameName)] + (if teams == [] then [""] else Numbered(teams, 1)) + ["", ExitOption]
  {
    TeamMenuShape(gameName, teams);
    TeamHeadingUnbroken(gameName);
    ExitUnbroken();
    NumberedUnbroken(teams, 1);
    FramedSplit(TeamHeading(gameName), Numbered(teams, 1), ExitOption, '\n');
  }

  lemma TeamMenuShape(gameName: string, teams: seq<string>)
    ensures TeamMenu(gameName, teams)
         == TeamHeading(gameName) + ['\n'] + Join(Numbered(teams, 1), ['\n']) + ['\n', '\n'] + ExitOption
  {
  }

  /** Split into lines, the data menu is its heading, the two data options, a
      blank line and the exit option. */
  lemma DataMenuLines(team: string, gameName: string)
    requires '\n' !in team && '\n' !in gameName
    ensures Split(DataMenu(team, gameName), '\n')
              == [DataHeading(team, gameName), PlayersOption, MatchesOption, "", ExitOption]
  {
    DataMenuShape(team, gameName);
    DataHeadingUnbroken(team, gameName);
    ExitUnbroken();
    OptionsUnbroken();
    FramedSplit(DataHeading(team, gameName), [PlayersOption, MatchesOption], ExitOption, '\n');
  }

  lemma DataMenuShape(team: string, gameName: string)
    ensures DataMenu(team, gameName)
         == DataHeading(team, gameName) + ['\n'] + Join([PlayersOption, MatchesOption], ['\n'])
            + ['\n', '\n'] + ExitOption
  {
    assert Join([PlayersOption, MatchesOption], ['\n']) == PlayersOption + ['\n'] + MatchesOption;
  }

  /** Split into lines, the answer is its heading, one bulleted line per
      result (an empty line when there are none), a blank line and the
      footer. */
  lemma DataAnswerLines(kind: DataKind, team: string, gameName: string, lines: seq<string>)
    requires '\n' !in team && '\n' !in gameName
    requires forall i :: 0 <= i < |lines| ==> '\n' !in lines[i]
    ensures Split(DataAnswer(kind, team, gameName, lines), '\n')
              == [AnswerHeading(kind, team, gameName)] + (if lines == [] then [""] else Bulleted(lines))
                 + ["", FooterText]
  {
    DataAnswerShape(kind, team, gameName, lines);
    AnswerHeadingUnbroken(kind, team, gameName);
    FooterUnbroken();
    BulletedUnbroken(lines);
    FramedSplit(AnswerHeading(kind, team, gameName), Bulleted(lines), FooterText, '\n');
  }

  lemma DataAnswerShape(kind: DataKind, team: string, gameName: string, lines: seq<string>)
    ensures DataAnswer(kind, team, gameName, lines)
         == AnswerHeading(kind, team, gameName) + ['\n'] + Join(Bulleted(lines), ['\n']) + ['\n', '\n'] + FooterText
  {
  }


  // ---------------------------------------------------------------------
  // The dialogue
  // ---------------------------------------------------------------------

  /** The data request a command makes, if any: a number 1 or 2 typed at
      the data menu. */
  function Pending(states: map<string, Conv>, user: string, cmd: string): (r: Option<Query>)
    ensures r.Some? ==> user in states && states[user].ChoosingData? && !IsCancel(cmd)
    ensures r.Some? ==> r.value.game == states[user].gameCode && r.value.team == states[user].team
    ensures r.Some? ==> (r.value.kind == Players <==> ParseInt(cmd) == Some(1))
    ensures r.Some? <==> user in states && states[user].ChoosingData? && !IsCancel(cmd)
                         && (ParseInt(cmd) == Some(1) || ParseInt(cmd) == Some(2))
  {
    if IsCancel(cmd) || user !in states then None
    else match states[user]
      case ChoosingData(code, _, team) =>
        (match ParseInt(cmd)
         case Some(n) =>
           if n == 1 then Some(Query(code, team, Players))
           else if n == 2 then Some(Query(code, team, Matches))
           else None
         case None => None)
      case _ => None
  }

  /** A step that keeps the conversation where it is. */
  function Stay(states: map<string, Conv>, message: string, isFinal: bool): (t: Turn)
    ensures t.states == states && t.reply == Reply(message, isFinal)
  {
    Turn(Reply(message, isFinal), states)
  }

  /** The game menu step: `choice` picks a game of the catalogue. */
  function ChooseGame(states: map<string, Conv>, user: string, choice: int): (t: Turn)
    ensures t.states - {user} == states - {user}
    ensures choice == 0 ==> t == Stay(states, Closed, true)
    ensures choice != 0 && GameOfChoice(choice).None? ==> t == Stay(states, BadGame, false)
    ensures GameOfChoice(choice).Some? ==>
              var g := GameOfChoice(choice).value;
              && t.reply == Reply(TeamMenu(g.name, GameTeams[g.code]), false)
              && user in t.states && t.states[user] == ChoosingTeam(g.code, g.name, GameTeams[g.code])
  {
    if choice == 0 then Stay(states, Closed, true)
    else match GameOfChoice(choice)
      case None => Stay(states, BadGame, false)
      case Some(g) =>
        var teams := GameTeams[g.code];
        Turn(Reply(TeamMenu(g.name, teams), false), states[user := ChoosingTeam(g.code, g.name, teams)])
  }

  /** The team menu step: `choice` is a position in the offered list. */
  function ChooseTeam(states: map<string, Conv>, user: string, code: string, name: string,
                      teams: seq<string>, choice: int): (t: Turn)
    ensures t.states - {user} == states - {user}
    ensures choice == 0 ==> t == Stay(states, Closed, true)
    ensures choice != 0 && !(1 <= choice <= |teams|) ==> t == Stay(states, BadTeam, false)
    ensures 1 <= choice <= |teams| ==>
              && t.reply == Reply(DataMenu(teams[choice - 1], name), false)
              && user in t.states && t.states[user] == ChoosingData(code, name, teams[choice - 1])
  {
    if choice == 0 then Stay(states, Closed, true)
    else if choice < 1 || choice > |teams| then Stay(states, BadTeam, false)
    else
      var team := teams[choice - 1];
      Turn(Reply(DataMenu(team, name), false), states[user := ChoosingData(code, name, team)])
  }

  /** The data menu step: 1 asks for the roster, 2 for the matches; either
      answer ends the conversation. */
  function ChooseData(states: map<string, Conv>, user: string, code: string, name: string,
                      team: string, choice: int, data: Query -> seq<string>): (t: Turn)
    ensures t.states - {user} == states - {user}
    ensures choice == 0 ==> t == Stay(states, Closed, true)
    ensures choice != 0 && choice != 1 && choice != 2 ==> t == Stay(states, BadData, false)
    ensures choice == 1 || choice == 2 ==>
              var kind := if choice == 1 then Players else Matches;
              && t.reply == Reply(DataAnswer(kind, team, name, data(Query(code, team, kind))), true)
              && user !in t.states
  {
    if choice == 0 then Stay(states, Closed, true)
    else if choice != 1 && choice != 2 then Stay(states, BadData, false)
    else
      var kind := if choice == 1 then Players else Matches;
      var lines := data(Query(code, team, kind));
      Turn(Reply(DataAnswer(kind, team, name, lines), true), states - {user})
  }

  /** `handle_bot_command(user_id, command)`: the reply to one command of one
      user, and the conversation table after it. No other user's
      conversation changes; a cancel word ends the conversation; a user
      without a conversation gets the game menu; a command that is not a
      number is rejected without changing anything, except at the data menu,
      where it ends the exchange with an error but keeps the conversation. */
  function Handle(states: map<string, Conv>, user: string, cmd: string, data: Query -> seq<string>): (t: Turn)
    ensures t.states - {user} == states - {user}
    ensures IsCancel(cmd) ==> t.reply == Reply(Ended, true) && user !in t.states
    ensures !IsCancel(cmd) && user !in states ==>
              t.reply == Reply(GameMenu, false) && t.states == states[user := ChoosingGame]
    ensures !IsCancel(cmd) && user in states && ParseInt(cmd).None? ==>
              t == Stay(states, if states[user].ChoosingData? then CommandError else NotANumber,
                        states[user].ChoosingData?)
    ensures !IsCancel(cmd) && user in states && ParseInt(cmd) == Some(0) ==> t == Stay(states, Closed, true)
    ensures Pending(states, user, cmd).Some? ==>
              var q := Pending(states, user, cmd).value;
              t.reply == Reply(DataAnswer(q.kind, q.team, states[user].gameName, data(q)), true)
              && user !in t.states
    ensures user !in t.states ==> t.reply.isFinal
    ensures !t.reply.isFinal ==> user in t.states
    ensures t.reply.isFinal && user in t.states ==> user in states && t.states[user] == states[user]
    ensures !IsCancel(cmd) && user in states && ParseInt(cmd).Some? ==>
              var n := ParseInt(cmd).value;
              match states[user]
              case ChoosingGame => t == ChooseGame(states, user, n)
              case ChoosingTeam(code, name, teams) => t == ChooseTeam(states, user, code, name, teams, n)
              case ChoosingData(code, name, team) => t == ChooseData(states, user, code, name, team, n, data)
  {
    if IsCancel(cmd) then Turn(Reply(Ended, true), states - {user})
    else if user !in states then Turn(Reply(GameMenu, false), states[user := ChoosingGame])
    else Advance(states, user, cmd, data)
  }

  /** A command that is not a cancel word, from a user with a conversation:
      the step the conversation is at reads the command as a number. */
  function Advance(states: map<string, Conv>, user: string, cmd: string, data: Query -> seq<string>): (t: Turn)
    requires user in states && !IsCancel(cmd)
    ensures t.states - {user} == states - {user}
    ensures ParseInt(cmd).None? ==>
              t == Stay(states, if states[user].ChoosingData? then CommandError else NotANumber,
                        states[user].ChoosingData?)
    ensures ParseInt(cmd) == Some(0) ==> t == Stay(states, Closed, true)
    ensures Pending(states, user, cmd).Some? ==>
              var q := Pending(states, user, cmd).value;
              t.reply == Reply(DataAnswer(q.kind, q.team, states[user].gameName, data(q)), true)
              && user !in t.states
    ensures user !in t.states ==> t.reply.isFinal
    ensures !t.reply.isFinal ==> user in t.states
    ensures t.reply.isFinal && user in t.states ==> t.states[user] == states[user]
    ensures ParseInt(cmd).Some? ==>
              var n := ParseInt(cmd).value;
              match states[user]
              case ChoosingGame => t == ChooseGame(states, user, n)
              case ChoosingTeam(code, name, teams) => t == ChooseTeam(states, user, code, name, teams, n)
              case ChoosingData(code, name, team) => t == ChooseData(states, user, code, name, team, n, data)
  {
    match states[user]
    case ChoosingGame =>
      (match ParseInt(cmd)
       case None => Stay(states, NotANumber, false)
       case Some(n) => ChooseGame(states, user, n))
    case ChoosingTeam(code, name, teams) =>
      (match ParseInt(cmd)
       case None => Stay(states, NotANumber, false)
       case Some(n) => ChooseTeam(states, user, code, name, teams, n))
    case ChoosingData(code, name, team) =>
      (match ParseInt(cmd)
       case None => Stay(states, CommandError, true)
       case Some(n) => ChooseData(states, user, code, name, team, n, data))
  }

  // ---------------------------------------------------------------------
  // Properties of the dialogue
  // ---------------------------------------------------------------------

  /** The reply depends on the data source only through the one request
      the command makes. */
  lemma OnlyPendingConsulted(states: map<string, Conv>, user: string, cmd: string,
                             d1: Query -> seq<string>, d2: Query -> seq<string>)
    requires Pending(states, user, cmd).None? || d1(Pending(states, user, cmd).value) == d2(Pending(states, user, cmd).value)
    ensures Handle(states, user, cmd, d1) == Handle(states, user, cmd, d2)
  {
    if !IsCancel(cmd) && user in states && ParseInt(cmd).Some? {
      var n := ParseInt(cmd).value;
      match states[user]
      case ChoosingGame =>
      case ChoosingTeam(_, _, _) =>
      case ChoosingData(code, name, team) =>
        if n == 1 || n == 2 {
          var kind := if n == 1 then Players else Matches;
          assert Pending(states, user, cmd) == Some(Query(code, team, kind));
        }
    }
  }

  /** A conversation that only names games and teams of the catalogue. */
  predicate InCatalogue(c: Conv)
  {
    match c
    case ChoosingGame => true
    case ChoosingTeam(code, name, teams) => Game(name, code) in Games && code in GameTeams && teams == GameTeams[code]
    case ChoosingData(code, name, team) => Game(name, code) in Games && code in GameTeams && team in GameTeams[code]
  }

  predicate AllInCatalogue(states: map<string, Conv>)
  {
    forall u :: u in states ==> InCatalogue(states[u])
  }

  /** Every step keeps all conversations within the catalogue. */
  lemma HandleStaysInCatalogue(states: map<string, Conv>, user: string, cmd: string, data: Query -> seq<string>)
    requires AllInCatalogue(states)
    ensures AllInCatalogue(Handle(states, user, cmd, data).states)
  {
    var t := Handle(states, user, cmd, data);
    if user in t.states {
      UserStaysInCatalogue(states, user, cmd, data);
    }
    OthersInCatalogue(states, t.states, user);
  }

  /** The user's own conversation stays within the catalogue. */
  lemma UserStaysInCatalogue(states: map<string, Conv>, user: string, cmd: string, data: Query -> seq<string>)
    requires AllInCatalogue(states)
    requires user in Handle(states, user, cmd, data).states
    ensures InCatalogue(Handle(states, user, cmd, data).states[user])
  {
    var t := Handle(states, user, cmd, data);
    if !IsCancel(cmd) {
      if user !in states {
        assert t.states[user] == ChoosingGame;
      } else if ParseInt(cmd).None? {
        assert t.states == states;
      } else {
        var c := states[user];
        var n := ParseInt(cmd).value;
        assert InCatalogue(c);
        match c
        case ChoosingGame =>
          assert t == ChooseGame(states, user, n);
          GameStepInCatalogue(states, user, n);
        case ChoosingTeam(code, name, teams) =>
          assert t == ChooseTeam(states, user, code, name, teams, n);
          TeamStepInCatalogue(states, user, code, name, teams, n);
        case ChoosingData(code, name, team) =>
          assert t == ChooseData(states, user, code, name, team, n, data);
      }
    }
  }

  lemma GameStepInCatalogue(states: map<string, Conv>, user: string, n: int)
    requires user in states && InCatalogue(states[user])
    requires user in ChooseGame(states, user, n).states
    ensures InCatalogue(ChooseGame(states, user, n).states[user])
  {
    if GameOfChoice(n).None? {
      assert ChooseGame(states, user, n).states == states;
    }
  }

  lemma TeamStepInCatalogue(states: map<string, Conv>, user: string, code: string, name: string,
                            teams: seq<string>, n: int)
    requires user in states && InCatalogue(states[user])
    requires Game(name, code) in Games && code in GameTeams && teams == GameTeams[code]
    requires user in ChooseTeam(states, user, code, name, teams, n).states
    ensures InCatalogue(ChooseTeam(states, user, code, name, teams, n).states[user])
  {
    if 1 <= n <= |teams| {
      assert teams[n - 1] in GameTeams[code];
    } else {
      assert ChooseTeam(states, user, code, name, teams, n).states == states;
    }
  }

  /** A table that changed at most at `user` keeps the other users'
      conversations within the catalogue. */
  lemma OthersInCatalogue(before: map<string, Conv>, after: map<string, Conv>, user: string)
    requires AllInCatalogue(before)
    requires after - {user} == before - {user}
    requires user in after ==> InCatalogue(after[user])
    ensures AllInCatalogue(after)
  {
    forall u | u in after
      ensures InCatalogue(after[u])
    {
      if u != user {
        assert u in after - {user};
        assert after[u] == (after - {user})[u] == before[u];
      }
    }
  }

  /** In a table within the catalogue, every data request names a catalogue
      game and one of its teams, so it has an address of its own. */
  lemma PendingAddressable(states: map<string, Conv>, user: string, cmd: string)
    requires AllInCatalogue(states)
    requires Pending(states, user, cmd).Some?
    ensures var q := Pending(states, user, cmd).value;
            q.game in GameTeams && q.team in GameTeams[q.game] && Addressable(q)
  {
    var q := Pending(states, user, cmd).value;
    assert InCatalogue(states[user]);
    CatalogueAddressable(q);
  }

  /** Typing the number shown in front of a team on the team menu selects
      that team. */
  lemma MenuNumberSelectsTeam(states: map<string, Conv>, user: string, n: int, data: Query -> seq<string>)
    requires user in states && states[user].ChoosingTeam?
    requires 1 <= n <= |states[user].teams| && Printable(n)
    ensures var c := states[user];
            var line := Numbered(c.teams, 1)[n - 1];
            var t := Handle(states, user, IntToString(n), data);
            && line == IntToString(n) + ". " + c.teams[n - 1]
            && t.reply == Reply(DataMenu(c.teams[n - 1], c.gameName), false)
            && user in t.states && t.states[user] == ChoosingData(c.gameCode, c.gameName, c.teams[n - 1])
  {
    var c := states[user];
    var cmd := IntToString(n);
    ParseIntShow(n);
    NotCancelNumber(n);
    assert Handle(states, user, cmd, data) == ChooseTeam(states, user, c.gameCode, c.gameName, c.teams, n);
  }

  /** Only the literal `0` among printed integers is a cancel word. */
  lemma NotCancelNumber(n: int)
    requires n != 0
    ensures !IsCancel(IntToString(n))
  {
    var s := IntToString(n);
    CancelSpellings(s);
    if s == "0" {
      assert IntToString(0) == "0";
      ParseIntShow(n);
      ParseIntShow(0);
      assert false;
    } else if |s| == 4 {
      assert s[0] == '-' || IsDigit(s[0]) by {
        if n >= 0 {
          assert s == NatToString(n);
        }
      }
    }
  }

  /** Cancelling and writing again restarts at the game menu. */
  lemma CancelThenRestart(states: map<string, Conv>, user: string, cancel: string, next: string,
                          data: Query -> seq<string>)
    requires IsCancel(cancel) && !IsCancel(next)
    ensures var t1 := Handle(states, user, cancel, data);
            var t2 := Handle(t1.states, user, next, data);
            t2.reply == Reply(GameMenu, false) && t2.states[user] == ChoosingGame
  {
  }

  /** Typing a game's menu number at the game menu opens that game's team
      menu. */
  lemma MenuNumberSelectsGame(states: map<string, Conv>, user: string, g: int, data: Query -> seq<string>)
    requires user in states && states[user] == ChoosingGame
    requires 1 <= g <= |Games|
    ensures var game := Games[g - 1];
            var t := Handle(states, user, IntToString(g), data);
            && t.reply == Reply(TeamMenu(game.name, GameTeams[game.code]), false)
            && t.states == states[user := ChoosingTeam(game.code, game.name, GameTeams[game.code])]
  {
    ParseIntShow(g);
    NotCancelNumber(g);
    MenuGameListed(g);
    var t := Handle(states, user, IntToString(g), data);
    assert t == Advance(states, user, IntToString(g), data);
    assert t == ChooseGame(states, user, g);
  }

  /** Typing 1 or 2 at the data menu answers with that kind of data and
      ends the conversation. */
  lemma MenuNumberSelectsData(states: map<string, Conv>, user: string, d: int, data: Query -> seq<string>)
    requires user in states && states[user].ChoosingData?
    requires d == 1 || d == 2
    ensures var c := states[user];
            var kind := if d == 1 then Players else Matches;
            var t := Handle(states, user, IntToString(d), data);
            && t.reply == Reply(DataAnswer(kind, c.team, c.gameName, data(Query(c.gameCode, c.team, kind))), true)
            && t.states == states - {user}
  {
    var c := states[user];
    ParseIntShow(d);
    NotCancelNumber(d);
    var t := Handle(states, user, IntToString(d), data);
    assert t == Advance(states, user, IntToString(d), data);
    assert t == ChooseData(states, user, c.gameCode, c.gameName, c.team, d, data);
  }

  /** A greeting and a game's menu number open that game's team menu. */
  lemma GreetThenGame(states: map<string, Conv>, user: string, greeting: string, g: int,
                      data: Query -> seq<string>)
    requires user !in states && !IsCancel(greeting) && 1 <= g <= |Games|
    ensures var game := Games[g - 1];
            var t1 := Handle(states, user, greeting, data);
            Handle(t1.states, user, IntToString(g), data).states
            == states[user := ChoosingTeam(game.code, game.name, GameTeams[game.code])]
  {
    var t1 := Handle(states, user, greeting, data);
    assert t1.states == states[user := ChoosingGame];
    MenuNumberSelectsGame(t1.states, user, g, data);
    MenuGameListed(g);
    var game := Games[g - 1];
    UpdateTwice(states, user, ChoosingGame, ChoosingTeam(game.code, game.name, GameTeams[game.code]));
  }

  /** At the team menu, a team's number and then 1 or 2 answer for that team
      and close the conversation. */
  lemma TeamThenData(states: map<string, Conv>, user: string, k: int, d: int, data: Query -> seq<string>)
    requires user in states && states[user].ChoosingTeam?
    requires 1 <= k <= |states[user].teams| && Printable(k) && (d == 1 || d == 2)
    ensures var c := states[user];
            var team := c.teams[k - 1];
            var kind := if d == 1 then Players else Matches;
            var t2 := Handle(states, user, IntToString(k), data);
            var t3 := Handle(t2.states, user, IntToString(d), data);
            && t3.reply == Reply(DataAnswer(kind, team, c.gameName, data(Query(c.gameCode, team, kind))), true)
            && t3.states == states - {user}
  {
    var c := states[user];
    MenuNumberSelectsTeam(states, user, k, data);
    var t2 := Handle(states, user, IntToString(k), data);
    MenuNumberSelectsData(t2.states, user, d, data);
    assert t2.states - {user} == states - {user};
  }

  /** A whole conversation: any greeting, then the numbers of a game, of one
      of its teams and of a data kind, ends with the answer for exactly that
      game, team and kind, and leaves the table as it was before the
      conversation began. */
  lemma FullConversation(states: map<string, Conv>, user: string, greeting: string,
                         g: int, k: int, d: int, data: Query -> seq<string>)
    requires user !in states && !IsCancel(greeting)
    requires 1 <= g <= |Games| && 1 <= k <= |GameTeams[Games[g - 1].code]| && (d == 1 || d == 2)
    ensures var game := Games[g - 1];
            var team := GameTeams[game.code][k - 1];
            var kind := if d == 1 then Players else Matches;
            var t1 := Handle(states, user, greeting, data);
            var t2 := Handle(t1.states, user, IntToString(g), data);
            var t3 := Handle(t2.states, user, IntToString(k), data);
            var t4 := Handle(t3.states, user, IntToString(d), data);
            && t4.reply == Reply(DataAnswer(kind, team, game.name, data(Query(game.code, team, kind))), true)
            && t4.states == states
  {
    var t1 := Handle(states, user, greeting, data);
    GreetThenGame(states, user, greeting, g, data);
    var t2 := Handle(t1.states, user, IntToString(g), data);
    MenuGameListed(g);
    SmallPrintable(k);
    TeamThenData(t2.states, user, k, d, data);
    UpdateThenRemove(states, user, t2.states[user]);
  }

  /** A second update of the same user replaces the first. */
  lemma UpdateTwice(states: map<string, Conv>, user: string, a: Conv, b: Conv)
    ensures states[user := a][user := b] == states[user := b]
  {
  }

  /** Opening a conversation and closing it again restores the table. */
  lemma UpdateThenRemove(states: map<string, Conv>, user: string, c: Conv)
    requires user !in states
    ensures states[user := c] - {user} == states
  {
  }
}
