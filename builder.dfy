/** The question-set builder run when a quiz starts: filter the catalog
    by the chosen script and sound class, fall back to the whole catalog
    when too few entries survive, clamp the question count, draw distinct
    targets from a shuffled pool, and give each target four distractors
    from the same pool in shuffled order. */
module QuestionBuilder {
  import opened Kana
  import Shuffle

  /** The script setting: one script, or both. */
  datatype ScriptChoice = OnlyScript(script: KanaType) | Mixed

  /** The sound-class setting: one class, or all of them. */
  datatype CategoryChoice = OnlyCategory(category: KanaCategory) | AllCategories

  /** The settings the builder reads. The question count comes from a
      slider over 20..200; the audio provider is not read here. */
  datatype Settings = Settings(questionCount: nat, kanaType: ScriptChoice, category: CategoryChoice)

  /** A filtered pool smaller than this is replaced by the whole catalog. */
  const MinPoolSize: nat := 5

  /** How many distractors a question takes from the pool. */
  const DistractorCount: nat := 4

  /** The filter applied to each catalog entry: the script level, then the
      sound-class level. */
  predicate PassesFilters(k: KanaChar, s: Settings) {
    && (match s.kanaType
        case Mixed => true
        case OnlyScript(t) => k.kind == t)
    && (match s.category
        case AllCategories => true
        case OnlyCategory(c) => k.category == c)
  }

  /** The catalog entries that pass both filters, in catalog order. */
  function FilterBySettings(catalog: seq<KanaChar>, s: Settings): (filtered: seq<KanaChar>)
    ensures forall k :: k in filtered <==> k in catalog && PassesFilters(k, s)
    ensures UniqueIds(catalog) ==> UniqueIds(filtered)
  {
    Filter(catalog, (k: KanaChar) => PassesFilters(k, s))
  }

  /** The pool a session draws from: the filtered entries, or the whole
      catalog when fewer than five pass the filters. */
  function SelectPool(catalog: seq<KanaChar>, s: Settings): (pool: seq<KanaChar>)
    ensures |FilterBySettings(catalog, s)| >= MinPoolSize ==>
              forall k :: k in pool <==> k in catalog && PassesFilters(k, s)
    ensures |FilterBySettings(catalog, s)| < MinPoolSize ==> pool == catalog
    ensures forall k :: k in pool ==> k in catalog
    ensures |catalog| >= MinPoolSize ==> |pool| >= MinPoolSize
    ensures UniqueIds(catalog) ==> UniqueIds(pool)
  {
    var filtered := FilterBySettings(catalog, s);
    if |filtered| < MinPoolSize then catalog else filtered
  }

  /** What every built question promises about its options, given the
      pool the session draws from. */
  ghost predicate WellFormedQuestion(q: Question, pool: seq<KanaChar>) {
    && (forall o :: o in q.options ==> o in pool)
    && multiset(q.options)[q.target] == 1
    && UniqueIds(q.options)
    && |q.options| == 1 + Min(DistractorCount, |pool| - 1)
  }

  /** The options of one question: up to four distractors, drawn from a
      shuffled copy of the pool without the target's id, then the target
      and the distractors shuffled together. */
  method BuildOptions(pool: seq<KanaChar>, target: KanaChar) returns (options: seq<KanaChar>)
    ensures forall o :: o in options ==> o == target || (o in pool && o.id != target.id)
    ensures multiset(options)[target] == 1
    ensures UniqueIds(pool) ==> UniqueIds(options)
    ensures |options| == 1 + Min(DistractorCount, |Others(pool, target.id)|)
    ensures UniqueIds(pool) && target in pool ==> |options| == 1 + Min(DistractorCount, |pool| - 1)
  {
    var others := Others(pool, target.id);
    var shuffledOthers := Shuffle.ShuffleArray(others);
    var distractors := shuffledOthers[..Min(DistractorCount, |shuffledOthers|)];
    PrefixOfPermutationIn(others, shuffledOthers, |distractors|);
    var candidates := [target] + distractors;
    options := Shuffle.ShuffleArray(candidates);
    assert target !in distractors;
    assert multiset(candidates) == multiset{target} + multiset(distractors);
    PrefixOfPermutationIn(candidates, options, |options|);
    assert options[..|options|] == options;
    if UniqueIds(pool) {
      PermutationKeepsUniqueIds(others, shuffledOthers);
      ConsKeepsUniqueIds(target, distractors);
      PermutationKeepsUniqueIds(candidates, options);
      if target in pool {
        FilterOutOneId(pool, target);
      }
    }
  }

  /** The initialising effect of a quiz: builds the whole question list.
      The catalog facts (unique ids, at least five entries) are assumed of
      the caller, as the catalog is static. */
  method BuildQuestions(catalog: seq<KanaChar>, s: Settings) returns (questions: seq<Question>)
    requires UniqueIds(catalog) && |catalog| >= MinPoolSize
    ensures |questions| == Min(s.questionCount, |SelectPool(catalog, s)|)
    ensures forall i :: 0 <= i < |questions| ==>
              questions[i].target in SelectPool(catalog, s) &&
              WellFormedQuestion(questions[i], SelectPool(catalog, s))
    ensures forall i :: 0 <= i < |questions| ==> |questions[i].options| == DistractorCount + 1
    ensures forall i, j :: 0 <= i < j < |questions| ==> questions[i].target.id != questions[j].target.id
  {
    var pool := SelectPool(catalog, s);
    var count := Min(s.questionCount, |pool|);
    var shuffled := Shuffle.ShuffleArray(pool);
    var targets := shuffled[..count];
    PermutationKeepsUniqueIds(pool, shuffled);
    PrefixOfPermutationIn(pool, shuffled, count);
    var gameQuestions: seq<Question> := [];
    for n := 0 to |targets|
      invariant |gameQuestions| == n
      invariant forall i :: 0 <= i < n ==>
                  gameQuestions[i].target == targets[i] && WellFormedQuestion(gameQuestions[i], pool)
    {
      var target := targets[n];
      assert target in pool;
      var options := BuildOptions(pool, target);
      gameQuestions := gameQuestions + [Question(target, options)];
    }
    questions := gameQuestions;
  }
}
