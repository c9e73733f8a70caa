/**
 * The static game catalogue: the games the bot offers, in menu order, and the
 * teams listed for each (`GAME_TEAMS` and the `games` table of
 * `handle_bot_command` in app.py).
 */
module Catalog {
  import opened Wrappers

  /** A game as the dialogue stores it: display name and site code. */
  datatype Game = Game(name: string, code: string)

  const CounterStrikeCode: string := "counterstrike"
  const ValorantCode: string := "valorant"
  const LeagueCode: string := "leagueoflegends"

  /** `GAME_TEAMS`: the teams offered for each game code, in menu order. */
  const GameTeams: map<string, seq<string>> := map[
    CounterStrikeCode := ["FURIA", "FURIA Academy", "FURIA Female"],
    ValorantCode := ["FURIA", "FURIA Academy", "FURIA Female"],
    LeagueCode := ["FURIA", "FURIA Youth"]
  ]

  /** The game menu: choice `n` is entry `n - 1`. */
  const Games: seq<Game> := [
    Game("CS2", CounterStrikeCode),
    Game("Valorant", ValorantCode),
    Game("LoL", LeagueCode)
  ]

  /** `games[choice]`, or `None` where `choice not in games`. */
  function GameOfChoice(choice: int): (r: Option<Game>)
    ensures r.Some? <==> 1 <= choice <= 3
    ensures r.Some? ==> r.value == Games[choice - 1] && r.value in Games && r.value.code in GameTeams
  {
    if 1 <= choice <= |Games| then Some(Games[choice - 1]) else None
  }

  /** Each menu number names a game that has a team list of one to three teams. */
  lemma MenuGameListed(g: int)
    requires 1 <= g <= |Games|
    ensures Games[g - 1].code in GameTeams && 1 <= |GameTeams[Games[g - 1].code]| <= 3
  {
    if g == 1 {
      assert Games[0].code == CounterStrikeCode;
    } else if g == 2 {
      assert Games[1].code == ValorantCode;
    } else {
      assert Games[2].code == LeagueCode;
    }
  }
}
