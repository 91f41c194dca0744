# trendmaster game core in Dafny

This project models the core of *trendmaster*, a chat-bot game built on Google
Trends. Each round has a question template, `"{} update"`. Each player submits a
word, and the word fills the template to form the player's phrase. At the end of
the round, every phrase is scored by its Google Trends interest, and each player's
score grows by the score of their phrase. The model covers `trendmaster/trends.py`:
the explore-page URL builder `get_google_trends_url` and the class
`GoogleTrendsGame` with `__init__`, `start_round`, `add_word` and `end_round`.

Files:

- `wrappers.dfy` (module `Wrappers`): `Option`, `Result` and `Outcome`. These stand
  for Python's `None` and for raised exceptions.
- `pystr.dfy` (module `PyStr`): the two Python string operations the game uses,
  `Format` (`str.format` with one `{}` placeholder) and `Join` (`sep.join`), and
  `Split` (`str.split`). The source never splits; `Split` serves only as the
  inverse of `Join` in the URL round-trip proof.
- `trends.dfy` (module `Trends`): the URL builder and the game.
  - The game is first given on values. `GameState` holds the three fields, and the
    step functions `StartRoundStep`, `AddWordStep` and `EndRoundStep` say what each
    operation returns or raises and what the fields are afterwards.
  - The class `GoogleTrendsGame` has the same three fields, `question`, `words` and
    `scores`, and its methods change them in place. Each method is proved to do what
    its step function says. `EndRound` adds the scores in a loop, as the source
    does, picking the players in any order; the loop's result is proved equal to
    `Award`. `AwardInOrderMatches` and `AwardAnyOrder` prove this again, over
    explicit visiting orders, which are closer to Python's insertion-ordered
    dictionary iteration: every order gives `Award`.
  - `Inv` is the invariant of every reachable game, and `Valid()` applies it to the
    object. Every phrase-holder has a score entry. No words are held without a
    question. The question, when set, is the template.

Errors: `InvalidGameStateError` becomes `GameError.InvalidGameState`. `add_word`
outside a round makes Python raise `AttributeError` on `None.format` before anything
changes. The model returns this as the explicit error `GameError.NoActiveQuestion`,
with no state change. The round guards use Python truthiness: the question counts
as set only when it is present and non-empty.

The Google Trends query in `end_round` is a parameter, `oracle: map<string, int>`,
from phrase to score. The source reads the dictionary `wintuples`, made from the
last row of the interest-over-time table. It then does an unguarded lookup of each
phrase in it and returns it. So `EndRound` requires every submitted phrase to be a
key of `oracle` (`PhrasesScored`), and on success it returns `oracle` itself.

## Model

| member | source | states |
|---|---|---|
| `Trends.GoogleTrendsUrlShape` | trendmaster/trends.py:12-14 | the URL is exactly `https://trends.google.com/trends/explore`, then `?q=`, then the words joined with `,`, with no escaping |
| `Trends.GoogleTrendsUrlExample` | test/unit/test_trends.py:56-58 | `["example", "words"]` gives `https://trends.google.com/trends/explore?q=example,words` |
| `Trends.QueryWordsRoundTrip` | trendmaster/trends.py:12-14 | a non-empty word list with no commas is recovered exactly from its URL, so the URL does not lose such lists |
| `Trends.GoogleTrendsUrlCommaCollision` | trendmaster/trends.py:14 | because nothing is escaped, `["a,b"]` and `["a", "b"]` give the same URL |
| `PyStr.FormatFillsPlaceholder` | trendmaster/trends.py:50 | filling a template's only `{}` keeps the text on both sides of it and puts the argument between them |
| `PyStr.SplitJoin` | trendmaster/trends.py:14 | splitting a `,`-joined non-empty list whose words have no `,` gives the list back |
| `Trends.NewGameCannotEndRound` | trendmaster/trends.py:58-59 | the new game of lines 32-37 has no question, words or scores; it satisfies the invariant; `end_round` on it raises `InvalidGameState` |
| `Trends.StartRoundSpec` | trendmaster/trends.py:39-46 | from a valid game, `start_round` succeeds exactly when no question is set; it then sets the question to `"{} update"`, leaves words and scores alone and keeps the invariant |
| `Trends.StartRoundTwiceFails` | trendmaster/trends.py:42-43 | a `start_round` right after a successful one always raises `InvalidGameState` |
| `Trends.AddWordSpec` | trendmaster/trends.py:48-53 | during a round, `add_word` returns `word + " update"` and stores it as that player's phrase; other players' phrases and the question are unchanged; a new player gets score 0 and existing scores are unchanged; the invariant is kept; outside a round it fails |
| `Trends.AddWordLastWriteWins` | trendmaster/trends.py:50 | a second `add_word` by the same player leaves the game as if only the second had been made |
| `Trends.EndRoundSpec` | trendmaster/trends.py:55-73 | from a valid game, `end_round` fails exactly when there are no words; on success each submitting player's score is the old score plus the oracle's value for their phrase, other scores are unchanged, words are empty, the question is unset, the result is the oracle map, and the invariant is kept |
| `Trends.AwardInOrderMatches` | trendmaster/trends.py:66-67 | the scoring loop, run over any duplicate-free order of players, adds the phrase score to exactly the players it visits |
| `Trends.AwardAnyOrder` | trendmaster/trends.py:66-67 | every visiting order of the round's players yields the same scores, so dictionary order does not matter |
| `Trends.SubmitAllSpec` | trendmaster/trends.py:48-53 | after a sequence of `add_word` calls in a round, each submitting player holds the phrase of their last word, others keep their phrases, and every submitter has a score entry, 0 if new |
| `Trends.FullRound` | trendmaster/trends.py:39-73 | from an idle game, `start_round`, a non-empty run of `add_word`, then `end_round` succeeds; each submitter's score becomes their earlier score (or 0) plus the oracle's value for their last word plus `" update"`; everyone else keeps their score, and the round is cleared |
| `Trends.GoogleTrendsGame.constructor` | trendmaster/trends.py:32-37 | a new game object holds the new game: no question, words or scores |
| `Trends.GoogleTrendsGame.StartRound` | trendmaster/trends.py:39-46 | the object's fields and result follow `StartRoundStep`; on failure nothing changes; `Valid()` is kept |
| `Trends.GoogleTrendsGame.AddWord` | trendmaster/trends.py:48-53 | the object's fields and returned phrase follow `AddWordStep`; on failure nothing changes; `Valid()` is kept |
| `Trends.GoogleTrendsGame.EndRound` | trendmaster/trends.py:55-73 | the loop adds each player's phrase score into `scores` in place, then the round is cleared; the fields and result follow `EndRoundStep`; on failure nothing changes; `Valid()` is kept |

## Left out

- The Google Trends client (`TrendReq`, `build_payload`, `interest_over_time`): the client built at trendmaster/trends.py:33 and the table work at lines 61-64 (dropping `isPartial`, taking the last row). These are network I/O and pandas. They are replaced by the `oracle` parameter.
- `Trends.GoogleTrendsGame.EndRound`: requires every phrase to have a score in `oracle`. In the source, a missing phrase raises `KeyError` partway through the loop. Some scores are then already changed, and the clean-up at lines 70-71 never runs. A failing or empty trends query likewise raises and skips the clean-up. This path is not modelled.
- Scores are Python numbers taken from a table, and the table may hold floats. The model uses `int`.
- Players are the type parameter `Player`. In the source they are Discord `Member` objects, or strings in the tests. Python dictionary iteration order is not modelled: the scoring loop picks players in any order, and `AwardAnyOrder` shows the order cannot matter.
- `PyStr.Format` models `str.format` only for a template whose one replacement field is `{}` with no other braces. That covers both templates the source uses, `"{} update"` and `"?q={}"`. Escaped braces, numbered or named fields, and the errors for a missing argument are not modelled.
- The source has no question pool, no front/back choice of where the word goes, no per-channel registry of games, no percent-encoding of URL words, and no recovery when scoring fails. None of these is modelled. The code is followed; `GoogleTrendsUrlCommaCollision` shows what the missing encoding means.
- trendmaster/__main__.py (argument parsing, logging, token file, starting the bot), trendmaster/bot.py (Discord wiring) and setup.py (packaging) are not part of this model. They are transport and start-up code.
