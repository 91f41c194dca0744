/**
 * The Google Trends guessing game: the explore-page URL builder and the round
 * state machine `GoogleTrendsGame`.
 *
 * The game is given twice. `GameState` and the step functions `StartRoundStep`,
 * `AddWordStep` and `EndRoundStep` say, on values, what each operation returns
 * and what the game looks like afterwards; the lemmas about the game are stated
 * on them. The class `GoogleTrendsGame` keeps the same three fields and changes
 * them in place, and each of its methods is proved to do what its step
 * function says.
 */
module Trends {
  import opened Wrappers
  import opened PyStr

  // ---------------------------------------------------------------------------
  // The explore-page URL
  // ---------------------------------------------------------------------------

  const ExploreUrl: string := "https://trends.google.com/trends/explore"

  /** The explore page with `words` queried: the query is the words joined by commas, not escaped. */
  function GoogleTrendsUrl(words: seq<string>): (url: string)
  {
    ExploreUrl + Format("?q={}", Join(words, ","))
  }

  /** The URL is the fixed page address, `?q=`, and the comma-joined words, nothing else. */
  lemma GoogleTrendsUrlShape(words: seq<string>)
    ensures GoogleTrendsUrl(words) == ExploreUrl + "?q=" + Join(words, ",")
  {
    FormatFillsPlaceholder("?q=", "", Join(words, ","));
    assert "?q=" + "{}" + "" == "?q={}";
    assert "?q=" + Join(words, ",") + "" == "?q=" + Join(words, ",");
  }

  /** The worked example: two words give `...explore?q=example,words`. */
  lemma GoogleTrendsUrlExample()
    ensures GoogleTrendsUrl(["example", "words"])
         == "https://trends.google.com/trends/explore?q=example,words"
  {
    GoogleTrendsUrlShape(["example", "words"]);
    assert Join(["example", "words"], ",") == "example,words";
  }

  /** Reads the word list back out of an explore-page URL, if it is one. */
  function QueryWords(url: string): (words: Option<seq<string>>)
  {
    var prefix := ExploreUrl + "?q=";
    if |prefix| <= |url| && url[..|prefix|] == prefix then Some(Split(url[|prefix|..], ','))
    else None
  }

  /** A non-empty word list without commas is recovered exactly from its URL. */
  lemma QueryWordsRoundTrip(words: seq<string>)
    requires |words| >= 1
    requires forall k :: 0 <= k < |words| ==> ',' !in words[k]
    ensures QueryWords(GoogleTrendsUrl(words)) == Some(words)
  {
    var prefix := ExploreUrl + "?q=";
    var url := GoogleTrendsUrl(words);
    GoogleTrendsUrlShape(words);
    assert url == prefix + Join(words, ",");
    assert url[..|prefix|] == prefix && url[|prefix|..] == Join(words, ",");
    SplitJoin(words, ',');
  }

  /** Without escaping, a word holding a comma reads as two words: the URL does not determine the list. */
  lemma GoogleTrendsUrlCommaCollision()
    ensures ["a,b"] != ["a", "b"]
    ensures GoogleTrendsUrl(["a,b"]) == GoogleTrendsUrl(["a", "b"])
  {
  }

  // ---------------------------------------------------------------------------
  // The game, on values
  // ---------------------------------------------------------------------------

  /** `InvalidGameStateError`, and the error Python raises on `None.format` when no round runs. */
  datatype GameError = InvalidGameState | NoActiveQuestion

  /** The question every round uses: the submitted word goes in front of " update". */
  const QuestionTemplate: string := "{} update"

  /**
   * The three fields of a game: the round's question (None between rounds),
   * each player's phrase this round, and each player's running score.
   */
  datatype GameState<Player> = GameState(
    question: Option<string>,
    words: map<Player, string>,
    scores: map<Player, int>)

  /** Python truthiness of the `question` field. */
  predicate QuestionSet(question: Option<string>) {
    question.Some? && question.value != ""
  }

  /** What every reachable game satisfies. */
  ghost predicate Inv<Player>(s: GameState<Player>) {
    && s.words.Keys <= s.scores.Keys
    && (s.question.None? ==> s.words == map[])
    && (s.question.Some? ==> s.question.value == QuestionTemplate)
  }

  /** A new game: no round, no words, no scores. */
  function NewGame<Player>(): (s: GameState<Player>) {
    GameState(None, map[], map[])
  }

  /** `start_round`: refused while a round has words or a question; otherwise sets the question. */
  function StartRoundStep<Player>(s: GameState<Player>): (r: Result<GameState<Player>, GameError>)
  {
    if s.words != map[] || QuestionSet(s.question) then Failure(InvalidGameState)
    else Success(s.(question := Some(QuestionTemplate)))
  }

  /**
   * `add_word`: the phrase is the question with `word` filled in; it replaces
   * the player's earlier phrase, and a new player gets score 0. Both the new
   * game and the phrase are returned.
   */
  function AddWordStep<Player>(s: GameState<Player>, word: string, player: Player)
    : (r: Result<(GameState<Player>, string), GameError>)
  {
    if s.question.None? then Failure(NoActiveQuestion)
    else
      var phrase := Format(s.question.value, word);
      var scores := if player in s.scores then s.scores else s.scores[player := 0];
      Success((s.(words := s.words[player := phrase], scores := scores), phrase))
  }

  /** Every phrase submitted this round has a score in `oracle`. */
  predicate PhrasesScored<Player>(words: map<Player, string>, oracle: map<string, int>) {
    forall p :: p in words ==> words[p] in oracle
  }

  /** The scores after the players in `done` have had their phrase's score added. */
  function AwardTo<Player>(scores: map<Player, int>, words: map<Player, string>,
                           oracle: map<string, int>, done: set<Player>): (awarded: map<Player, int>)
    requires done <= words.Keys && PhrasesScored(words, oracle)
  {
    map p | p in scores :: if p in done then scores[p] + oracle[words[p]] else scores[p]
  }

  /** The scores after every player with a phrase this round has been awarded its score. */
  function Award<Player>(scores: map<Player, int>, words: map<Player, string>,
                         oracle: map<string, int>): (awarded: map<Player, int>)
    requires PhrasesScored(words, oracle)
  {
    AwardTo(scores, words, oracle, words.Keys)
  }

  /** The scoring loop of `end_round`, visiting the players in the given order. */
  function AwardInOrder<Player>(scores: map<Player, int>, words: map<Player, string>,
                                oracle: map<string, int>, order: seq<Player>): (awarded: map<Player, int>)
    requires forall k :: 0 <= k < |order| ==> order[k] in words && order[k] in scores
    requires PhrasesScored(words, oracle)
  {
    if order == [] then scores
    else
      var p := order[0];
      AwardInOrder(scores[p := scores[p] + oracle[words[p]]], words, oracle, order[1..])
  }

  /**
   * `end_round`: refused unless the round has words and a question; otherwise
   * adds each player's phrase score from `oracle`, clears the round, and
   * returns `oracle` itself.
   */
  function EndRoundStep<Player>(s: GameState<Player>, oracle: map<string, int>)
    : (r: Result<(GameState<Player>, map<string, int>), GameError>)
    requires PhrasesScored(s.words, oracle)
  {
    if s.words == map[] || !QuestionSet(s.question) then Failure(InvalidGameState)
    else Success((GameState(None, map[], Award(s.scores, s.words, oracle)), oracle))
  }

  // ---------------------------------------------------------------------------
  // Lemmas about the game
  // ---------------------------------------------------------------------------

  /** A new game satisfies the invariant and cannot end a round. */
  lemma NewGameCannotEndRound<Player>(oracle: map<string, int>)
    ensures Inv(NewGame<Player>())
    ensures EndRoundStep(NewGame<Player>(), oracle) == Failure(InvalidGameState)
  {
  }

  /** `start_round` keeps the invariant; it succeeds exactly in the idle state and then changes only the question. */
  lemma StartRoundSpec<Player>(s: GameState<Player>)
    requires Inv(s)
    ensures StartRoundStep(s).Success? <==> s.question.None?
    ensures StartRoundStep(s).Success? ==>
      var t := StartRoundStep(s).value;
      Inv(t) && t.question == Some(QuestionTemplate) && t.words == s.words && t.scores == s.scores
  {
  }

  /** A second `start_round` straight after a successful one always fails. */
  lemma StartRoundTwiceFails<Player>(s: GameState<Player>)
    requires StartRoundStep(s).Success?
    ensures StartRoundStep(StartRoundStep(s).value) == Failure(InvalidGameState)
  {
  }

  /**
   * `add_word` during a round returns `word + " update"`, stores it for that
   * player only, keeps the question, gives a new player score 0 and leaves
   * every existing score alone; without a round it fails.
   */
  lemma AddWordSpec<Player>(s: GameState<Player>, word: string, player: Player)
    requires Inv(s)
    ensures AddWordStep(s, word, player).Failure? <==> s.question.None?
    ensures AddWordStep(s, word, player).Success? ==>
      var (t, phrase) := AddWordStep(s, word, player).value;
      && Inv(t)
      && phrase == word + " update"
      && t.question == s.question
      && t.words.Keys == s.words.Keys + {player}
      && t.words[player] == phrase
      && (forall q :: q in s.words && q != player ==> t.words[q] == s.words[q])
      && t.scores.Keys == s.scores.Keys + {player}
      && (forall q :: q in s.scores ==> t.scores[q] == s.scores[q])
      && (player !in s.scores ==> t.scores[player] == 0)
  {
  }

  /** A player's second `add_word` in a round replaces the first: last write wins. */
  lemma AddWordLastWriteWins<Player>(s: GameState<Player>, first: string, second: string, player: Player)
    requires AddWordStep(s, first, player).Success?
    ensures AddWordStep(AddWordStep(s, first, player).value.0, second, player)
         == AddWordStep(s, second, player)
  {
    var once := AddWordStep(s, first, player).value.0;
    assert once.words[player := Format(s.question.value, second)]
        == s.words[player := Format(s.question.value, second)];
  }

  /** `end_round` keeps the invariant and fails, changing nothing, unless words and question are both set. */
  lemma EndRoundSpec<Player>(s: GameState<Player>, oracle: map<string, int>)
    requires Inv(s) && PhrasesScored(s.words, oracle)
    ensures EndRoundStep(s, oracle).Failure? <==> s.words == map[]
    ensures EndRoundStep(s, oracle).Success? ==>
      var (t, result) := EndRoundStep(s, oracle).value;
      && Inv(t)
      && t.question.None? && t.words == map[]
      && result == oracle
      && t.scores.Keys == s.scores.Keys
      && (forall p :: p in s.words ==> t.scores[p] == s.scores[p] + oracle[s.words[p]])
      && (forall p :: p in s.scores && p !in s.words ==> t.scores[p] == s.scores[p])
  {
  }

  /** Awarding one more player, who was not yet done, is one more map update. */
  lemma AwardToStep<Player>(scores: map<Player, int>, words: map<Player, string>,
                            oracle: map<string, int>, p: Player, done: set<Player>)
    requires done <= words.Keys && p in words && p in scores && p !in done
    requires PhrasesScored(words, oracle)
    ensures AwardTo(scores[p := scores[p] + oracle[words[p]]], words, oracle, done)
         == AwardTo(scores, words, oracle, done + {p})
  {
  }

  /** Awarding one more player on top of those already done. */
  lemma AwardToExtend<Player>(scores: map<Player, int>, words: map<Player, string>,
                              oracle: map<string, int>, p: Player, done: set<Player>)
    requires done <= words.Keys && p in words && p in scores && p !in done
    requires PhrasesScored(words, oracle)
    ensures var partial := AwardTo(scores, words, oracle, done);
      partial[p := partial[p] + oracle[words[p]]] == AwardTo(scores, words, oracle, done + {p})
  {
  }

  /**
   * The scoring loop's result does not depend on the order in which it visits
   * the players: any duplicate-free order awards exactly the players it lists.
   */
  lemma {:induction false} AwardInOrderMatches<Player>(scores: map<Player, int>, words: map<Player, string>,
                                                       oracle: map<string, int>, order: seq<Player>)
    requires forall k :: 0 <= k < |order| ==> order[k] in words && order[k] in scores
    requires forall i, j :: 0 <= i < j < |order| ==> order[i] != order[j]
    requires PhrasesScored(words, oracle)
    ensures AwardInOrder(scores, words, oracle, order) == AwardTo(scores, words, oracle, set k | 0 <= k < |order| :: order[k])
  {
    var done := set k | 0 <= k < |order| :: order[k];
    if order == [] {
      assert AwardTo(scores, words, oracle, done) == scores;
    } else {
      var p := order[0];
      var rest := set k | 0 <= k < |order[1..]| :: order[1..][k];
      var next := scores[p := scores[p] + oracle[words[p]]];
      assert next.Keys == scores.Keys;
      AwardInOrderMatches(next, words, oracle, order[1..]);
      assert p !in rest by {
        forall k | 0 <= k < |order[1..]| ensures order[1..][k] != p {
          assert order[1..][k] == order[k + 1];
        }
      }
      assert done == rest + {p} by {
        forall q | q in done ensures q in rest + {p} {
          var k :| 0 <= k < |order| && order[k] == q;
          if k > 0 { assert order[1..][k - 1] == q; }
        }
      }
      AwardToStep(scores, words, oracle, p, rest);
    }
  }

  /** Any order that visits each player with a phrase exactly once gives the scores `end_round` promises. */
  lemma AwardAnyOrder<Player>(scores: map<Player, int>, words: map<Player, string>,
                              oracle: map<string, int>, order: seq<Player>)
    requires words.Keys <= scores.Keys
    requires forall i, j :: 0 <= i < j < |order| ==> order[i] != order[j]
    requires (set k | 0 <= k < |order| :: order[k]) == words.Keys
    requires PhrasesScored(words, oracle)
    ensures AwardInOrder(scores, words, oracle, order) == Award(scores, words, oracle)
  {
    var listed := set k | 0 <= k < |order| :: order[k];
    forall j | 0 <= j < |order| ensures order[j] in words && order[j] in scores {
      assert order[j] in listed;
    }
    AwardInOrderMatches(scores, words, oracle, order);
  }

  // ---------------------------------------------------------------------------
  // A whole round
  // ---------------------------------------------------------------------------

  /** The word the player submitted last in `subs`, if any. */
  function LastWord<Player(==)>(subs: seq<(Player, string)>, player: Player): (word: Option<string>)
  {
    if subs == [] then None
    else if subs[|subs| - 1].0 == player then Some(subs[|subs| - 1].1)
    else LastWord(subs[..|subs| - 1], player)
  }

  /** The game after each submission in `subs`, in order, went through `add_word`; a refused one changes nothing. */
  function SubmitAll<Player>(s: GameState<Player>, subs: seq<(Player, string)>): (t: GameState<Player>)
  {
    if subs == [] then s
    else
      var before := SubmitAll(s, subs[..|subs| - 1]);
      var (player, word) := subs[|subs| - 1];
      match AddWordStep(before, word, player)
      case Success((after, _)) => after
      case Failure(_) => before
  }

  /**
   * After a round's submissions, the game holds exactly one phrase per player
   * who submitted, built from that player's last word, and a score entry for
   * every player who had one or who submitted.
   */
  lemma {:induction false} SubmitAllSpec<Player>(s: GameState<Player>, subs: seq<(Player, string)>)
    requires Inv(s) && s.question.Some?
    ensures var t := SubmitAll(s, subs);
      && Inv(t)
      && t.question == s.question
      && (forall p :: p in t.words <==> p in s.words || LastWord(subs, p).Some?)
      && (forall p :: LastWord(subs, p).Some? ==> t.words[p] == LastWord(subs, p).value + " update")
      && (forall p :: p in s.words && LastWord(subs, p).None? ==> t.words[p] == s.words[p])
      && (forall p :: p in t.scores <==> p in s.scores || LastWord(subs, p).Some?)
      && (forall p :: p in s.scores ==> t.scores[p] == s.scores[p])
      && (forall p :: p !in s.scores && p in t.scores ==> t.scores[p] == 0)
  {
    if subs != [] {
      var init := subs[..|subs| - 1];
      SubmitAllSpec(s, init);
      var (player, word) := subs[|subs| - 1];
      AddWordSpec(SubmitAll(s, init), word, player);
    }
  }

  /**
   * A full round from an idle game: `start_round`, the submissions, then
   * `end_round` with scores for every phrase. The round ends, and each player
   * who submitted gains the score of the phrase built from their last word,
   * on top of their earlier score or 0.
   */
  lemma {:induction false} FullRound<Player>(s: GameState<Player>, subs: seq<(Player, string)>,
                                                 oracle: map<string, int>)
    requires Inv(s) && s.question.None?
    requires |subs| >= 1
    requires forall p :: LastWord(subs, p).Some? ==> LastWord(subs, p).value + " update" in oracle
    ensures StartRoundStep(s).Success?
    ensures var played := SubmitAll(StartRoundStep(s).value, subs);
      PhrasesScored(played.words, oracle) && EndRoundStep(played, oracle).Success?
    ensures var played := SubmitAll(StartRoundStep(s).value, subs);
      var t := EndRoundStep(played, oracle).value.0;
      && t.question.None? && t.words == map[]
      && (forall p :: p in t.scores <==> p in s.scores || LastWord(subs, p).Some?)
      && (forall p :: LastWord(subs, p).Some? ==>
            t.scores[p] == (if p in s.scores then s.scores[p] else 0) + oracle[LastWord(subs, p).value + " update"])
      && (forall p :: p in s.scores && LastWord(subs, p).None? ==> t.scores[p] == s.scores[p])
  {
    StartRoundSpec(s);
    var started := StartRoundStep(s).value;
    SubmitAllSpec(started, subs);
    var played := SubmitAll(started, subs);
    forall p | p in played.words ensures played.words[p] in oracle {
      assert LastWord(subs, p).Some?;
    }
    assert subs[|subs| - 1].0 in played.words by {
      assert LastWord(subs, subs[|subs| - 1].0).Some?;
    }
    EndRoundSpec(played, oracle);
  }

  // ---------------------------------------------------------------------------
  // The game object
  // ---------------------------------------------------------------------------

  /** `GoogleTrendsGame`: one game, its fields changed in place by the three round operations. */
  class GoogleTrendsGame<Player(==)> {
    var question: Option<string>
    var words: map<Player, string>
    var scores: map<Player, int>

    /** The fields as a value. */
    function State(): (s: GameState<Player>)
      reads this
    {
      GameState(question, words, scores)
    }

    ghost predicate Valid()
      reads this
    {
      Inv(State())
    }

    /** A new game: no question, no words, no scores. */
    constructor ()
      ensures Valid()
      ensures State() == NewGame()
    {
      scores := map[];
      words := map[];
      question := None;
    }

    /** `start_round`: fails with `InvalidGameState` mid-round; otherwise sets the question template. */
    method StartRound() returns (r: Outcome<GameError>)
      requires Valid()
      modifies this
      ensures Valid()
      ensures match StartRoundStep(old(State()))
        case Success(t) => r == Pass && State() == t
        case Failure(e) => r == Fail(e) && State() == old(State())
    {
      if words != map[] || QuestionSet(question) {
        return Fail(InvalidGameState);
      }
      question := Some(QuestionTemplate);
      r := Pass;
    }

    /** `add_word`: stores and returns the player's phrase; fails without a round. */
    method AddWord(word: string, player: Player) returns (r: Result<string, GameError>)
      requires Valid()
      modifies this
      ensures Valid()
      ensures match AddWordStep(old(State()), word, player)
        case Success((t, phrase)) => r == Success(phrase) && State() == t
        case Failure(e) => r == Failure(e) && State() == old(State())
    {
      if question.None? {
        return Failure(NoActiveQuestion);
      }
      words := words[player := Format(question.value, word)];
      if player !in scores {
        scores := scores[player := 0];
      }
      r := Success(words[player]);
    }

    /**
     * `end_round`, with `oracle` standing for the trends query's scores by
     * phrase: fails when no round is active; otherwise adds each player's phrase score,
     * clears the round and returns `oracle`.
     */
    method EndRound(oracle: map<string, int>) returns (r: Result<map<string, int>, GameError>)
      requires Valid()
      requires PhrasesScored(words, oracle)
      modifies this
      ensures Valid()
      ensures match EndRoundStep(old(State()), oracle)
        case Success((t, result)) => r == Success(result) && State() == t
        case Failure(e) => r == Failure(e) && State() == old(State())
    {
      if words == map[] || !QuestionSet(question) {
        return Failure(InvalidGameState);
      }
      var todo := words.Keys;
      while todo != {}
        invariant todo <= words.Keys
        invariant words == old(words) && question == old(question)
        invariant scores == AwardTo(old(scores), words, oracle, words.Keys - todo)
        decreases todo
      {
        var player :| player in todo;
        AwardToExtend(old(scores), words, oracle, player, words.Keys - todo);
        scores := scores[player := scores[player] + oracle[words[player]]];
        todo := todo - {player};
        assert words.Keys - todo == (words.Keys - (todo + {player})) + {player};
      }
      assert words.Keys - todo == words.Keys;
      words := map[];
      question := None;
      r := Success(oracle);
    }
  }
}
