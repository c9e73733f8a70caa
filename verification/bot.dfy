/**
 * The bot as a whole: the dialogue of `handle_bot_command` answering data
 * requests through `get_esports_data` decorated with the module-level
 * `TTLCache(maxsize=32, ttl=300)` (app.py). Its state is the conversation
 * table and the cache; the network and the two clock readings of a cache
 * call are parameters of each command.
 */
module Bot {
  import opened Wrappers
  import opened TtlCache
  import opened Catalog
  import opened Fetcher
  import opened Engine

  datatype Bot = Bot(states: map<string, Conv>, cache: Cache<Query, seq<string>>)

  /** The reply to a command and the bot after it. */
  datatype Step = Step(reply: Reply, bot: Bot)

  /** The bot at start-up: no conversations and an empty cache of the
      default capacity and lifetime. */
  function Start(): (b: Bot)
    ensures b.states == map[] && |b.cache.entries| == 0
    ensures b.cache.maxsize == DefaultMaxSize && b.cache.ttl == DefaultTtl
    ensures Good(b)
  {
    Bot(map[], Empty(DefaultMaxSize, DefaultTtl))
  }

  /** The invariant the bot keeps: a well-formed cache within its capacity,
      and conversations that only name catalogue games and teams. */
  ghost predicate Good(b: Bot)
  {
    b.cache.Valid() && b.cache.Bounded() && AllInCatalogue(b.states)
  }

  /** One command of one user. A command that makes a data request goes
      through the cache: a fresh entry answers it without the network;
      otherwise the page is fetched (`net`), and the lines are stored with
      the clock reading `doneAt` taken after the fetch. Other commands leave
      the cache alone. */
  function OnCommand(b: Bot, user: string, cmd: string, net: string -> Response, now: int, doneAt: int): (s: Step)
    requires b.cache.Valid()
    ensures s.bot.cache.Valid()
    ensures b.cache.Bounded() ==> s.bot.cache.Bounded()
    ensures s.bot.states - {user} == b.states - {user}
    ensures Pending(b.states, user, cmd).None? ==> s.bot.cache == b.cache
    ensures Pending(b.states, user, cmd).Some? ==>
              var q := Pending(b.states, user, cmd).value;
              var lines := if b.cache.Fresh(q, now) then b.cache.entries[q].value else GetEsportsData(net, q);
              && s.reply == Reply(DataAnswer(q.kind, q.team, b.states[user].gameName, lines), true)
              && user !in s.bot.states
              && (b.cache.Fresh(q, now) ==> s.bot.cache == b.cache)
              && (!b.cache.Fresh(q, now) ==> s.bot.cache == Store(b.cache, q, lines, doneAt))
  {
    match Pending(b.states, user, cmd)
    case None =>
      var t := Handle(b.states, user, cmd, (q: Query) => []);
      Step(t.reply, Bot(t.states, b.cache))
    case Some(q) =>
      var out := Call(b.cache, q, now, GetEsportsData(net, q), doneAt);
      var t := Handle(b.states, user, cmd, (q': Query) => out.value);
      Step(t.reply, Bot(t.states, out.cache))
  }

  /** The bot answers exactly as the dialogue does with the data the cache
      call yields. */
  lemma AnswersAsDialogue(b: Bot, user: string, cmd: string, net: string -> Response, now: int, doneAt: int)
    requires b.cache.Valid()
    ensures var s := OnCommand(b, user, cmd, net, now, doneAt);
            var data := (q: Query) => Call(b.cache, q, now, GetEsportsData(net, q), doneAt).value;
            s.reply == Handle(b.states, user, cmd, data).reply
            && s.bot.states == Handle(b.states, user, cmd, data).states
  {
    var data := (q: Query) => Call(b.cache, q, now, GetEsportsData(net, q), doneAt).value;
    match Pending(b.states, user, cmd)
    case None =>
      OnlyPendingConsulted(b.states, user, cmd, (q: Query) => [], data);
    case Some(q) =>
      var out := Call(b.cache, q, now, GetEsportsData(net, q), doneAt);
      OnlyPendingConsulted(b.states, user, cmd, (q': Query) => out.value, data);
  }

  /** Every command keeps the invariant. */
  lemma OnCommandKeepsGood(b: Bot, user: string, cmd: string, net: string -> Response, now: int, doneAt: int)
    requires Good(b)
    ensures Good(OnCommand(b, user, cmd, net, now, doneAt).bot)
  {
    AnswersAsDialogue(b, user, cmd, net, now, doneAt);
    var data := (q: Query) => Call(b.cache, q, now, GetEsportsData(net, q), doneAt).value;
    HandleStaysInCatalogue(b.states, user, cmd, data);
  }

  /** After a request that went to the network, the same request within
      `ttl` seconds of the stamp is answered from the cache: its lines are
      the ones fetched before, whatever the network says now. */
  lemma RepeatedRequestServedFromCache(b: Bot, user: string, cmd: string, net: string -> Response,
                                       now: int, doneAt: int,
                                       user2: string, cmd2: string, net2: string -> Response,
                                       later: int, later2: int)
    requires Good(b) && b.cache.maxsize >= 1
    requires Pending(b.states, user, cmd).Some?
    requires !b.cache.Fresh(Pending(b.states, user, cmd).value, now)
    requires later - doneAt < b.cache.ttl
    requires Pending(OnCommand(b, user, cmd, net, now, doneAt).bot.states, user2, cmd2)
             == Pending(b.states, user, cmd)
    ensures var q := Pending(b.states, user, cmd).value;
            var s := OnCommand(b, user, cmd, net, now, doneAt);
            var s2 := OnCommand(s.bot, user2, cmd2, net2, later, later2);
            && s.bot.cache.Fresh(q, later) && s.bot.cache.entries[q].value == GetEsportsData(net, q)
            && s2.reply == Reply(DataAnswer(q.kind, q.team, s.bot.states[user2].gameName, GetEsportsData(net, q)), true)
            && s2.bot.cache == s.bot.cache
  {
    var q := Pending(b.states, user, cmd).value;
    RepeatWithinTtlHits(b.cache, q, now, GetEsportsData(net, q), doneAt, later, [], later);
  }

  /** Only a data request can touch the network: other commands answer the
      same whatever the network holds. */
  lemma NetworkOnlyForRequests(b: Bot, user: string, cmd: string, net1: string -> Response,
                               net2: string -> Response, now: int, doneAt: int)
    requires b.cache.Valid()
    requires Pending(b.states, user, cmd).None?
    ensures OnCommand(b, user, cmd, net1, now, doneAt) == OnCommand(b, user, cmd, net2, now, doneAt)
  {
  }
}
