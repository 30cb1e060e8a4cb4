/** The state of one quiz screen: the built questions, the index of the
    question shown, whether it has been answered, the option the learner
    picked, the running tally, and what was handed to the finish handler
    when the session ended. */
module Session {
  import opened Kana
  import opened Score

  /** The two quiz modes: hear the sound and pick the kana, or see the kana
      and pick the sound. */
  datatype QuizMode = AudioToKana | KanaToAudio

  class QuizSession {
    const mode: QuizMode
    const questions: seq<Question>
    var currentIndex: nat
    var isAnswered: bool
    var selected: Option<KanaChar>
    var stats: GameStats
    /** The tally passed to the finish handler, once the last question
        has been left. */
    var finished: Option<GameStats>

    /** The index always points at a question when there is one. */
    ghost predicate Valid()
      reads this
    {
      && (|questions| == 0 ==> currentIndex == 0)
      && (|questions| > 0 ==> currentIndex < |questions|)
      && DistinctKeys(stats.wrongHistory)
    }

    /** A fresh session over the questions the builder produced. */
    constructor (mode: QuizMode, questions: seq<Question>)
      ensures Valid()
      ensures this.mode == mode && this.questions == questions
      ensures currentIndex == 0 && !isAnswered && selected == None
      ensures stats == InitialStats && finished == None
    {
      this.mode := mode;
      this.questions := questions;
      currentIndex := 0;
      isAnswered := false;
      selected := None;
      stats := InitialStats;
      finished := None;
    }

    /** `confirmAnswer`: marks the question answered and folds the answer
        into the tally. Only reachable while a question is on screen. */
    method ConfirmAnswer(chosen: KanaChar)
      requires Valid() && |questions| > 0
      modifies this
      ensures Valid()
      ensures isAnswered
      ensures stats == Score.ConfirmAnswer(old(stats), chosen, questions[currentIndex].target)
      ensures currentIndex == old(currentIndex) && selected == old(selected) && finished == old(finished)
    {
      isAnswered := true;
      var correct := questions[currentIndex].target;
      stats := Score.ConfirmAnswer(stats, chosen, correct);
    }

    /** `handleSelect`: in the listening mode an answered question is
        locked, otherwise the pick is recorded and confirmed at once; in
        the reading mode the pick is only recorded (its sound is played)
        and the learner confirms separately. */
    method Select(option: KanaChar)
      requires Valid() && |questions| > 0
      modifies this
      ensures Valid()
      ensures mode == AudioToKana && old(isAnswered) ==>
                selected == old(selected) && stats == old(stats) && isAnswered
      ensures !(mode == AudioToKana && old(isAnswered)) ==> selected == Some(option)
      ensures mode == AudioToKana && !old(isAnswered) ==>
                isAnswered && stats == Score.ConfirmAnswer(old(stats), option, questions[currentIndex].target)
      ensures mode == KanaToAudio ==> stats == old(stats) && isAnswered == old(isAnswered)
      ensures currentIndex == old(currentIndex) && finished == old(finished)
    {
      if isAnswered && mode == AudioToKana {
        return;
      }
      selected := Some(option);
      if mode == AudioToKana {
        ConfirmAnswer(option);
      }
    }

    /** `nextQuestion`: moves to the following question and clears the
        answer state, or, on the last question, hands the tally to the
        finish handler and leaves the index where it is. */
    method NextQuestion()
      requires Valid()
      modifies this
      ensures Valid()
      ensures old(currentIndex) < |questions| - 1 ==>
                && currentIndex == old(currentIndex) + 1
                && !isAnswered && selected == None
                && finished == old(finished)
      ensures old(currentIndex) >= |questions| - 1 ==>
                && currentIndex == old(currentIndex)
                && isAnswered == old(isAnswered) && selected == old(selected)
                && finished == Some(old(stats))
      ensures stats == old(stats)
    {
      if currentIndex < |questions| - 1 {
        currentIndex := currentIndex + 1;
        isAnswered := false;
        selected := None;
      } else {
        finished := Some(stats);
      }
    }
  }
}
