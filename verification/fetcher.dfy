/**
 * `get_esports_data` (app.py): the page address of a query, the single page
 * request, and the hand-off to the roster or match-history extractor. The
 * network is a parameter `net`, mapping an address to what the request
 * yields: a parsed page, or `Failed` for a connection error, a timeout or an
 * error status (everything `requests.get` and `raise_for_status` raise).
 */
module Fetcher {
  import opened Wrappers
  import opened Text
  import opened Catalog
  import opened Roster
  import opened MatchParsers

  const SiteRoot: string := "https://liquipedia.net"
  const TemporaryError: string := "Erro temporário. Por favor, tente novamente mais tarde."
  const MatchesPage: string := "/Matches"
  const PlayedMatchesPage: string := "/Played_Matches"

  /** The `data_type` argument: the two values the dialogue passes. */
  datatype DataKind = Players | Matches

  /** The arguments of one call, which are also its cache key. */
  datatype Query = Query(game: string, team: string, kind: DataKind)

  /** What the extractors read from a page: the `roster-card` table's player
      rows and the first `wikitable` table's rows, each when present. */
  datatype Document = Document(roster: Option<seq<PlayerRow>>, matchTable: Option<seq<TableRow>>)

  datatype Response = Failed | Page(doc: Document)

  /** `team.replace(' ', '_')`: every space becomes an underscore and
      nothing else changes. */
  function TeamSlug(team: string): (r: string)
    ensures |r| == |team|
    ensures forall i :: 0 <= i < |team| ==> r[i] == (if team[i] == ' ' then '_' else team[i])
    ensures ' ' !in r
  {
    ReplaceCharPointwise(team, ' ', '_');
    Replace(team, " ", "_")
  }

  /** The team's page: `https://liquipedia.net/<game>/<slug>`. */
  function TeamUrl(game: string, team: string): string
  {
    SiteRoot + "/" + game + "/" + TeamSlug(team)
  }

  /** The page a query requests: the team page for players, its
      `/Played_Matches` subpage for League of Legends matches and its
      `/Matches` subpage for other games' matches. */
  function PageUrl(q: Query): (url: string)
    ensures q.kind == Players ==> url == TeamUrl(q.game, q.team)
    ensures q.kind == Matches ==>
              url == TeamUrl(q.game, q.team) + (if q.game == LeagueCode then PlayedMatchesPage else MatchesPage)
  {
    var base := TeamUrl(q.game, q.team);
    match q.kind
    case Players => base
    case Matches => if q.game == LeagueCode then base + PlayedMatchesPage else base + MatchesPage
  }

  /** `get_esports_data(game, team, data_type)`: the extracted lines of the
      requested page; the temporary-error line when the request fails or an
      extractor raises. Never empty, never more than ten lines. */
  function GetEsportsData(net: string -> Response, q: Query): (r: seq<string>)
    ensures 1 <= |r| <= MaxPlayers
    ensures net(PageUrl(q)).Failed? ==> r == [TemporaryError]
    ensures net(PageUrl(q)).Page? && q.kind == Players ==> r == ParsePlayers(net(PageUrl(q)).doc.roster)
    ensures net(PageUrl(q)).Page? && q.kind == Matches ==>
              r == match ParseMatches(net(PageUrl(q)).doc.matchTable, q.game)
                   case Raised => [TemporaryError]
                   case Lines(ls) => ls
  {
    match net(PageUrl(q))
    case Failed => [TemporaryError]
    case Page(doc) =>
      match q.kind
      case Players => ParsePlayers(doc.roster)
      case Matches =>
        match ParseMatches(doc.matchTable, q.game)
        case Raised => [TemporaryError]
        case Lines(ls) => ls
  }

  /** The answer depends on the network only through the one page the query
      names. */
  lemma OnlyPageConsulted(net1: string -> Response, net2: string -> Response, q: Query)
    requires net1(PageUrl(q)) == net2(PageUrl(q))
    ensures GetEsportsData(net1, q) == GetEsportsData(net2, q)
  {
  }

  /** A slug has no spaces left, so slugging twice is slugging once. */
  lemma SlugIdempotent(team: string)
    ensures TeamSlug(TeamSlug(team)) == TeamSlug(team)
  {
    var s := TeamSlug(team);
    assert forall i :: 0 <= i < |s| ==> TeamSlug(s)[i] == s[i];
  }

  /** Team names without underscores have different slugs, so different
      teams of a game are fetched from different pages. */
  lemma SlugInjective(a: string, b: string)
    requires '_' !in a && '_' !in b
    requires TeamSlug(a) == TeamSlug(b)
    ensures a == b
  {
    assert |a| == |b|;
    forall i | 0 <= i < |a|
      ensures a[i] == b[i]
    {
      assert TeamSlug(a)[i] == TeamSlug(b)[i];
    }
  }

  /** The matches page of a team is a subpage of its players page. */
  lemma MatchesBelowTeamPage(game: string, team: string)
    ensures var teamPage := PageUrl(Query(game, team, Players));
            var matchesPage := PageUrl(Query(game, team, Matches));
            |teamPage| < |matchesPage| && matchesPage[..|teamPage|] == teamPage
            && matchesPage[|teamPage|] == '/'
  {
    var base := TeamUrl(game, team);
    var sub := if game == LeagueCode then PlayedMatchesPage else MatchesPage;
    assert (base + sub)[..|base|] == base;
    assert (base + sub)[|base|] == sub[0];
  }

  /** The `/`-separated segments of a query's address after the site root. */
  function Segments(q: Query): seq<string>
  {
    [q.game, TeamSlug(q.team)]
    + match q.kind
      case Players => []
      case Matches => [if q.game == LeagueCode then "Played_Matches" else "Matches"]
  }

  /** The address is the site root followed by the segments joined with `/`. */
  lemma UrlSegments(q: Query)
    ensures PageUrl(q) == SiteRoot + "/" + Join(Segments(q), "/")
  {
    var slug := TeamSlug(q.team);
    var two := [q.game, slug];
    assert two[1..] == [slug];
    assert Join(two, "/") == q.game + "/" + slug;
    match q.kind
    case Players =>
      assert Segments(q) == two;
      UnderRoot(SiteRoot, q.game, slug, []);
      assert q.game + "/" + slug + [] == q.game + "/" + slug;
    case Matches =>
      var sub := if q.game == LeagueCode then "Played_Matches" else "Matches";
      JoinSnoc(two, sub, "/");
      assert Segments(q) == two + [sub];
      SubpageSegment(q.game);
      UnderRoot(SiteRoot, q.game, slug, "/" + sub);
      Assoc(q.game + "/" + slug, "/", sub);
  }

  lemma SubpageSegment(game: string)
    ensures "/" + (if game == LeagueCode then "Played_Matches" else "Matches")
            == (if game == LeagueCode then PlayedMatchesPage else MatchesPage)
  {
  }

  lemma Assoc(a: string, b: string, c: string)
    ensures a + b + c == a + (b + c)
  {
  }

  lemma UnderRoot(root: string, game: string, slug: string, tail: string)
    ensures root + "/" + game + "/" + slug + tail == root + "/" + (game + "/" + slug + tail)
  {
  }

  /** A query the address can be read back from: no `/` in the game code or
      team name, and no `_` in the team name. */
  predicate Addressable(q: Query)
  {
    '/' !in q.game && '/' !in q.team && '_' !in q.team
  }

  /** Different addressable queries request different pages, so the page
      fetched for one query never answers another. */
  lemma {:induction false} PageUrlInjective(q1: Query, q2: Query)
    requires Addressable(q1) && Addressable(q2)
    requires PageUrl(q1) == PageUrl(q2)
    ensures q1 == q2
  {
    UrlSegments(q1);
    UrlSegments(q2);
    var s1 := Segments(q1);
    var s2 := Segments(q2);
    var n := |SiteRoot + "/"|;
    assert Join(s1, "/") == PageUrl(q1)[n..];
    assert Join(s2, "/") == PageUrl(q2)[n..];
    SlashFree(q1);
    SlashFree(q2);
    SplitJoin(s1, '/');
    SplitJoin(s2, '/');
    assert s1 == s2;
    assert q1.game == s1[0] && q2.game == s2[0];
    assert TeamSlug(q1.team) == s1[1] && TeamSlug(q2.team) == s2[1];
    SlugInjective(q1.team, q2.team);
    assert q1.kind == q2.kind by {
      assert |s1| == (if q1.kind == Players then 2 else 3);
      assert |s2| == (if q2.kind == Players then 2 else 3);
    }
  }

  lemma SlashFree(q: Query)
    requires Addressable(q)
    ensures forall i :: 0 <= i < |Segments(q)| ==> '/' !in Segments(q)[i]
  {
    var slug := TeamSlug(q.team);
    forall k | 0 <= k < |slug|
      ensures slug[k] != '/'
    {
      assert slug[k] == (if q.team[k] == ' ' then '_' else q.team[k]);
      assert q.team[k] in q.team;
    }
  }

  /** Every query the dialogue can make (a catalogue game and one of its
      teams) is addressable. */
  lemma CatalogueAddressable(q: Query)
    requires q.game in GameTeams && q.team in GameTeams[q.game]
    ensures Addressable(q)
  {
    assert q.game in {CounterStrikeCode, ValorantCode, LeagueCode};
    assert '/' !in CounterStrikeCode && '/' !in ValorantCode && '/' !in LeagueCode;
    var teams := GameTeams[q.game];
    assert q.team in ["FURIA", "FURIA Academy", "FURIA Female", "FURIA Youth"] by {
      var i :| 0 <= i < |teams| && teams[i] == q.team;
    }
    TeamNameAddressable(q.team);
  }

  lemma TeamNameAddressable(team: string)
    requires team in ["FURIA", "FURIA Academy", "FURIA Female", "FURIA Youth"]
    ensures '/' !in team && '_' !in team
  {
    if team == "FURIA" {
    } else if team == "FURIA Academy" {
    } else if team == "FURIA Female" {
    } else {
      assert team == "FURIA Youth";
    }
  }
}
