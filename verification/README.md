# FURIA esports bot — a verified model of its core

This Dafny project models the logic of `app.py`, a chat bot that answers
questions about FURIA's esports teams. Users pick a game, one of its teams, and
then the team's roster or its recent matches. The bot fetches the team's
Liquipedia page, extracts the requested lines from the page's tables, and
keeps each answer in a time-limited cache.

The model has these parts:

- `ttl_cache.dfy` (`TtlCache`): the `TTLCache` decorator.
  - It has a capacity of 32 entries and a lifetime of 300 seconds.
  - Entries are kept in insertion order and evicted oldest first.
  - An entry is served only while it is younger than the lifetime.
- `catalog.dfy` (`Catalog`): the static catalogue. It holds `GAME_TEAMS` and the game menu of the dialogue.
- `fetcher.dfy` (`Fetcher`): `get_esports_data`.
  - It builds the team page address and turns any failure into the "temporary error" line.
  - It hands the page to the roster or match extractor.
  - The network is a parameter `net`, a map from an address to a parsed page or a failure.
- `match_result.dfy` (`MatchResult`): `parse_match_result`. A score `x:y` gets a victory, defeat or draw marker.
- `roster.dfy` (`Roster`): `parse_players`.
- `match_parsers.dfy` (`MatchParsers`): `parse_matches` and its three per-game parsers.
- `engine.dfy` (`Engine`): `handle_bot_command`. This is the per-user menu dialogue over the `user_states` table.
- `bot.dfy` (`Bot`): the dialogue answering its data requests through the cached fetcher.
- `text.dfy` (`Text`) and `wrappers.dfy` (`Wrappers`): the Python string operations the code relies on, and `Option`.
  - The string operations are `isspace`, `strip`, `lower`, `replace`, `split`, `join`, slicing, `str(int)` and `int(str)`.

Parsed HTML is reduced to what the extractors read:
- **Roster.** The player rows of the `roster-card` table. Each row has an `ID` cell (a link title or bold text) and a `Position` text.
- **Match tables.** The rows of the first `wikitable` table, header row included. Each row has its `class` list and its cells' stripped texts.

Three behaviours of `app.py` are easy to miss, and the model keeps them as the code has them:
- **Short rows raise.** The Counter-Strike parser checks only `len(cols) >= 5` (app.py:175), yet it reads cells 5 to 7.
  - So a row of five to seven cells raises `IndexError`. The Valorant parser has the same problem for rows of four or five cells.
  - Neither parser catches the error, so `get_esports_data` turns the whole answer into the temporary-error line.
  - In the model this is `Parsed.Raised`, and `MatchParsers.ShortCounterStrikeRowRaises` shows it.
- **A step-3 error keeps the conversation.** At the data menu, a command that is not an integer goes to the `except` at app.py:364-366.
  - That branch answers with a *final* error message and does not remove the user's state.
- **A numeric zero is not always a cancel.** Only the cancel words `0` and `sair`, in any letter case, remove the state (app.py:255-260).
  - A zero that is not literally `0` (for example `00`, ` 0` or `+0`) reaches the `choice == 0` tests at app.py:278, 315 and 346.
  - It gets the final "Conversa encerrada." answer, and the user's state stays where it was.

## Model

| member | source | states |
|---|---|---|
| TtlCache.Empty | app.py:23-26 | a new cache keeps the capacity and lifetime it is given, holds no entries, is well-formed and is within its capacity |
| TtlCache.Call | app.py:29-43 | an entry younger than the lifetime is returned without running the computation and nothing changes; otherwise the computation's value is returned and stored as `Store` says; the cache stays well-formed |
| TtlCache.Store | app.py:37-41 | the value is stored with the clock reading taken after the computation; a refreshed key keeps its place; a new key goes to the back; on overflow exactly the oldest key is evicted; the capacity bound is kept; no other entry changes |
| TtlCache.RepeatWithinTtlHits | app.py:32-38 | a second call with the same key within the lifetime of the first call's stamp is served the first value without recomputing and leaves the cache as it was |
| TtlCache.ExpiredIsRecomputed | app.py:32-38 | once the lifetime has passed, the next call recomputes and re-stamps the entry in place, keeping the order |
| TtlCache.InsertNewKey | app.py:37-41 | a miss on a new key leaves the newest `maxsize` keys of the old order followed by that key |
| TtlCache.FifoKeepsNewest | app.py:37-41 | after a run of misses on new keys, the cache holds the newest `maxsize` keys of the whole insertion history, oldest first |
| Catalog.GameOfChoice | app.py:281-290 | a choice names a game exactly when it is 1, 2 or 3; choice `n` names the `n`-th menu game, which has a team list |
| Text.Strip | app.py:145-146 | `strip()` leaves no whitespace at either end, uses only characters of the text, never lengthens it, and changes nothing on text without surrounding whitespace |
| Text.StripShape | app.py:145-146 | the stripped text is a slice of the original with only whitespace before and after it |
| Text.LastPiece | app.py:144 | `split('.')[-1]` holds no `.` and is a suffix of the text, preceded by a `.` when shorter than it |
| Text.ReplaceSkipsPrefix | app.py:132 | `replace` keeps a prefix in which no occurrence of the pattern starts |
| Text.ReplaceCharPointwise | app.py:74 | replacing one character by another maps the text character by character |
| Text.SplitJoin | app.py:104 | splitting pieces joined with a separator they do not contain gives the pieces back |
| Text.SplitCount | app.py:104 | `split(':')` gives one more piece than there are separators |
| Text.ParseInt | app.py:104 | `int()` rejects text holding an information separator (U+001C to U+001F); what it accepts is, after stripping, an optional sign and a digit run of at most 4300 digits, and the value is that run's number or its negation |
| Text.ParseIntPadded | app.py:277 | `int()` accepts any digit run within the limit behind an optional sign, padded with whitespace it strips, and gives its value, negated after `-` |
| Text.ParseIntShow | app.py:104 | `int()` reads back every integer as `str()` prints it, for every integer `str()` prints (at most 4300 digits) |
| Text.Take | app.py:155 | `s[:n]` is the prefix of length `min(n, len(s))` |
| Text.Slice | app.py:173 | `s[lo:hi]` has the clipped length and holds element `lo + j` at position `j` |
| Text.FramedSplit | app.py:295-298 | a head line, a block of lines, a blank line and a last line, joined with line breaks, split back into exactly those lines |
| MatchResult.ParseMatchResult | app.py:98-115 | the result is the score as written, or the score followed by exactly one of the three markers; without exactly one `:` the score is unchanged |
| MatchResult.ReadScore | app.py:100-105 | a score is read only from text with exactly one `:` |
| MatchResult.Verdict | app.py:107-112 | the marker is victory exactly when the first number is larger, defeat exactly when it is smaller, draw exactly when they are equal |
| MatchResult.ScoreRule | app.py:100-115 | for `a:b` with colon-free sides, both sides being integers gives the marker of their comparison, and anything else leaves the text unchanged |
| MatchResult.ScoreOfIntegers | app.py:104-112 | a score of two printed integers gets victory if the first is larger, defeat if smaller, draw if equal |
| MatchResult.VictoryExample | app.py:107-108 | `16:10` is annotated as a victory |
| MatchResult.DefeatExample | app.py:109-110 | `10:16` is annotated as a defeat |
| MatchResult.DrawExample | app.py:111-112 | `10:10` is annotated as a draw |
| MatchResult.TbdExample | app.py:100-101 | a score without `:` is returned as it is |
| Roster.CleanPosition | app.py:142-146 | the cleaned position holds no `.`, `(` or `)` and has no surrounding whitespace |
| Roster.CleanPositionKeeps | app.py:142-146 | a plain role name, without `.`, `(`, `)`, `:`, `&` or surrounding whitespace, passes the clean-up unchanged |
| Roster.RoleMarkerCleaned | app.py:142-146 | a marker written `Role: (X)` cleans up to the role `X` |
| Roster.Entry | app.py:149-153 | a row gives no line exactly when it has no name or an empty one; otherwise the line is the name, followed by ` - (position)` exactly when the position is non-empty |
| Roster.EntriesOne | app.py:149-153 | a single row's lines are its own line, or none |
| Roster.EntriesAllNamed | app.py:123-153 | rows that all give lines give them one for one, in row order |
| Roster.Entries | app.py:119-153 | at most one line per row, each non-empty; there are no lines exactly when no row has a name |
| Roster.EntriesAppend | app.py:123-153 | the lines of two runs of rows are the lines of each, in order |
| Roster.PlayerName | app.py:124-136 | there is no name exactly when the row has no ID cell or the cell has neither a link nor bold text; without a link the name is the bold text; with one it is made of the title's characters, no longer than it, and the title itself when the note does not occur in it |
| Roster.ParsePlayers | app.py:117-155 | one to ten lines; the sentinel alone when there is no table or no named row; otherwise the first ten row lines in order |
| Roster.MissingPageNoteDropped | app.py:128-132 | a link title that is a name followed by the missing-page note gives that name, when the note does not start inside the name |
| Roster.QualifiedTitleExample | app.py:128-132 | a title with a parenthesised note of its own loses only the missing-page note |
| Roster.PlainTitleKept | app.py:128-132 | a link title without the note is the name as it is |
| MatchParsers.Collect | app.py:173-184 | the row loop raises exactly when some row faults, gives at most one line per row, and gives no lines exactly when every row is skipped |
| MatchParsers.CollectAppend | app.py:173-184 | the loop over two runs of rows is the loop over each, concatenated; a fault in either raises |
| MatchParsers.CollectAllEmit | app.py:173-184 | rows that all emit give their lines one for one, in row order |
| MatchParsers.ParseWindow | app.py:173-186 | over the window of rows 1 to `end - 1`, the parse raises exactly when a row faults, is the sentinel exactly when every row is skipped, and otherwise is the loop's own lines |
| MatchParsers.WindowCollect | app.py:173 | over `rows[1:end]`, the loop raises exactly when a row from 1 to `end - 1` faults and is empty exactly when they are all skipped |
| MatchParsers.CounterStrikeRow | app.py:173-184 | a Counter-Strike row with fewer than five cells is skipped, one of five to seven cells raises, and a longer one gives a line that starts with its date |
| MatchParsers.ScoreLine | app.py:184 | a match line starts with its date, ends with its result and holds the `|` separator |
| MatchParsers.ParseCounterStrike | app.py:167-186 | one to five lines, or a raise exactly when a row among 1 to 5 has five to seven cells; the sentinel when there is no table, and with a table exactly when no row among 1 to 5 has five cells; otherwise the lines are the loop's lines over rows 1 to 5 |
| MatchParsers.PlayedCounterStrikeListed | app.py:173-186 | when rows 1 to 5 all have at least eight cells, the parse gives one line per row, in order, each that row's line |
| MatchParsers.CounterStrikeScore | app.py:179-184 | the line of a played match ends with its score cell as written followed by FURIA's verdict on that score |
| MatchParsers.CounterStrikeOpponent | app.py:176-184 | the opponent is cell 8 when the row has one, otherwise `TBD` |
| MatchParsers.ShortCounterStrikeRowRaises | app.py:173-179 | one six-cell row among rows 1 to 5 makes the whole Counter-Strike parse raise |
| MatchParsers.ValorantRow | app.py:195-203 | a Valorant row with fewer than four cells is skipped, one of four or five cells raises, and a longer one gives a line that starts with its date |
| MatchParsers.ParseValorant | app.py:188-205 | one to five lines, or a raise exactly when a row among 1 to 5 has four or five cells; the sentinel when there is no table, and with a table exactly when no row among 1 to 5 has four cells; otherwise the lines are the loop's lines over rows 1 to 5 |
| MatchParsers.PlayedValorantListed | app.py:194-205 | when rows 1 to 5 all have at least six cells, the parse gives one line per row, in order, each that row's line |
| MatchParsers.ValorantOpponent | app.py:197-203 | the line of a played match is its date, `FURIA vs` the opponent (cell 6, or `TBD` without one), the event (cell 4) and the annotated score (cell 5), in the f-string's order |
| MatchParsers.ValorantScore | app.py:199-203 | the line of a played match ends with its score cell as written followed by FURIA's verdict on that score |
| MatchParsers.LeagueResult | app.py:219-225 | a win class gives a victory, else a lose class gives a defeat, else no result; each outcome holds exactly under its condition |
| MatchParsers.LeagueRow | app.py:219-233 | a League row never raises, gives a line exactly when it has at least five cells, and the line ends with the row's result |
| MatchParsers.LeagueOpponentCut | app.py:229-233 | the opponent shown is at most 30 characters, and a shorter name is shown whole |
| MatchParsers.ParseLeague | app.py:207-239 | one to nine lines and never a raise; the no-table sentinel without a table; with a table, the no-match sentinel exactly when no row among 1 to 9 has five cells; otherwise the loop's lines over rows 1 to 9 |
| MatchParsers.PlayedLeagueListed | app.py:216-239 | when rows 1 to 9 all have at least five cells, the parse gives one line per row, in order, each that row's line |
| MatchParsers.ParseMatches | app.py:157-165 | each catalogue game code goes to its own parser; any other code gives the no-parser sentinel |
| MatchParsers.OnlyLeagueNeverRaises | app.py:157-243 | the League parser never raises, while a table exists that makes each of the other two raise |
| Fetcher.TeamSlug | app.py:74 | the slug is the name with every space made an underscore and nothing else changed |
| Fetcher.PageUrl | app.py:74-87 | players use the team page; matches use its `/Played_Matches` subpage for League of Legends and its `/Matches` subpage otherwise |
| Fetcher.GetEsportsData | app.py:65-96 | one to ten lines; a failed request gives the temporary-error line; a page goes to the roster extractor or the match extractor, and a raise becomes the temporary-error line |
| Fetcher.OnlyPageConsulted | app.py:77-92 | the answer depends on the network only through the one page the query names |
| Fetcher.SlugIdempotent | app.py:74 | slugging a slug changes nothing |
| Fetcher.SlugInjective | app.py:74 | names without underscores have different slugs |
| Fetcher.MatchesBelowTeamPage | app.py:83-87 | the matches page address is the players page address followed by a `/` subpage |
| Fetcher.UrlSegments | app.py:75-87 | the address is the site root, the game code, the slug and the subpage joined with `/` |
| Fetcher.PageUrlInjective | app.py:74-87 | different queries without `/` in game or team and without `_` in the team request different pages |
| Fetcher.CatalogueAddressable | app.py:52-56 | every catalogue game and team satisfies those conditions |
| Engine.CancelSpellings | app.py:255 | the cancel words are exactly `0` and `sair` in any mix of letter cases |
| Engine.NotCancelNumber | app.py:255-278 | no printed non-zero integer is a cancel word |
| Engine.Numbered | app.py:293 | team menu line `i` is the number `i + 1` followed by the team |
| Engine.Bulleted | app.py:355-358 | each answer line is its item behind a bullet |
| Engine.TeamMenuLines | app.py:293-298 | the team menu's lines are its heading, one numbered line per team, a blank line and the exit option |
| Engine.DataMenuLines | app.py:324-329 | the data menu's lines are its heading, the players and matches options, a blank line and the exit option |
| Engine.DataAnswerLines | app.py:355-360 | the answer's lines are its heading naming the data, team and game, one bulleted line per result (an empty line when there are none), a blank line and the footer |
| Engine.Pending | app.py:343-353 | a command requests data exactly when it is a non-cancel integer 1 or 2 at the data menu; the request names the stored game and team, and 1 asks for players |
| Engine.ChooseGame | app.py:277-306 | 0 ends the exchange and keeps the state; a number that names no game is rejected and changes nothing; a game's number opens its team menu |
| Engine.ChooseTeam | app.py:314-337 | 0 ends the exchange and keeps the state; a number outside the list is rejected and changes nothing; a listed number opens that team's data menu |
| Engine.ChooseData | app.py:345-362 | 0 ends the exchange and keeps the state; anything but 1 or 2 is rejected; 1 or 2 answers with that kind of data and removes the conversation |
| Engine.Handle | app.py:252-366 | no other user's conversation changes; a cancel word ends and removes the conversation; a new user gets the game menu; a non-integer is rejected without change, except at the data menu where it ends with an error; an integer is handled by the step of the user's current menu; a state is removed only by a final answer, and a non-final answer leaves one in place |
| Engine.Advance | app.py:275-366 | for a known user and a non-cancel command: a non-integer is rejected, 0 closes the exchange, a data request is answered and closes the conversation, and any integer goes to the current menu's step; no other user changes |
| Engine.OnlyPendingConsulted | app.py:352-353 | the reply depends on the data source only through the command's one request |
| Engine.HandleStaysInCatalogue | app.py:290-335 | every step keeps all conversations within the catalogue's games and teams |
| Engine.PendingAddressable | app.py:353 | in a catalogue table, every data request names a catalogue team and has a page of its own |
| Engine.MenuNumberSelectsGame | app.py:275-306 | typing a game's menu number opens exactly that game's team menu |
| Engine.MenuNumberSelectsTeam | app.py:293-337 | the number printed in front of a team on the menu selects that team |
| Engine.MenuNumberSelectsData | app.py:343-362 | typing 1 or 2 at the data menu answers with that data and removes the conversation |
| Engine.GreetThenGame | app.py:263-306 | a greeting and then a game's number reach that game's team menu |
| Engine.TeamThenData | app.py:312-362 | a team's number and then 1 or 2 answer for that team and close the conversation |
| Engine.FullConversation | app.py:252-366 | greeting, game, team and data numbers end with the answer for exactly that game, team and kind, and restore the table |
| Engine.CancelThenRestart | app.py:255-272 | after a cancel, the next non-cancel command starts again at the game menu |
| Bot.Start | app.py:46 | the bot starts with no conversations and an empty cache of capacity 32 and lifetime 300 |
| Bot.OnCommand | app.py:29-43 | a data request is answered from a fresh cache entry without the network, or else from the fetched page, which is then stored; other commands leave the cache alone; the cache stays well-formed and bounded |
| Bot.AnswersAsDialogue | app.py:64-65 | the bot replies exactly as the dialogue does with the cached fetcher as its data source |
| Bot.OnCommandKeepsGood | app.py:252-366 | every command keeps a well-formed, bounded cache and catalogue-only conversations |
| Bot.RepeatedRequestServedFromCache | app.py:32-35 | after a fetched request, a later command making the same request within the lifetime is answered, finally, with the lines fetched the first time, whatever the network says then, and leaves the cache unchanged |
| Bot.NetworkOnlyForRequests | app.py:343-353 | a command that makes no data request answers the same whatever the network holds |

## Left out

- The Flask app, the Socket.IO events and their handlers (`handle_message`, `handle_edit_message`, `handle_delete_message`), `message_history`, the index route and `dotenv`. They are transport and UI around the core.
  - The `@FuriaBot` prefix removal and stripping in `handle_message` belong to those handlers. The engine receives the command as it arrives.
- The HTTP request itself, the two-second `sleep`, the request headers, the ten-second timeout, and the error logging with `print`.
  - The network is the parameter `net`. Every request failure, timeout or error status is its `Failed` answer.
- HTML parsing. `BeautifulSoup` and `get_text(strip=True)` are not modelled: pages are given already reduced to the tables and cell texts the extractors read.
- `time.time()` is two integer parameters: the reading before the lookup and the one after the computation. Sub-second clock precision is not modelled.
- TtlCache.Call: the key `str(args) + str(kwargs)` is modelled as the argument tuple itself. The `repr` of a tuple of strings is injective, so equal keys mean equal arguments.
- `get_esports_data` with a `data_type` other than `players` or `matches` returns `None`. `DataKind` has only the two values the dialogue passes, so this path is not modelled.
- The outer `except` of `parse_lol_matches` (app.py:241-243) and its per-row `except` (app.py:235-237) are not modelled. Nothing in a League row's handling can raise once the page is reduced to cell texts.
- Text.ParseInt: digits outside ASCII, which Python's `int()` also accepts, are not modelled. The digit limit is Python's default of 4300; `sys.set_int_max_str_digits` is not modelled.
- Text.ParseIntShow, MatchResult.ScoreOfIntegers, MatchParsers.CounterStrikeScore and MatchParsers.ValorantScore require the integers to print in at most 4300 digits, because `str()` refuses longer ones.
- Text.Lower: it lower-cases ASCII letters only. It is used only to compare with `0` and `sair`, and no other character lower-cases to one of those.
- Text.Replace requires a non-empty pattern. Every pattern in app.py is non-empty.
- TtlCache.Store: the `ttl` and clock readings are integers where Python uses floats.
