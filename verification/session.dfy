/** The quiz screen's state and the event handlers that update it. */
module App {
  import opened Wrappers
  import opened Seqs
  import opened Text
  import opened Scrapbook
  import opened Quiz

  /** The state fields of the screen, each written through its setter by the handlers. */
  class Session {
    var results: seq<Sentence>         // the sentences of the last successful lookup
    var savedSentences: seq<Sentence>  // the scrapbook, in starring order
    var quizQuestion: string           // the sentence being rebuilt (the answer key)
    var quizOptions: seq<string>       // its tokens in scrambled order; a token's slot is its position
    var userAnswer: seq<Pick>          // the buttons tapped so far, in tap order
    var quizResult: Outcome            // the result line

    /** What every handler keeps: no sentence starred twice, no button selected twice,
        and, once a quiz exists, the buttons are exactly the sentence's tokens. */
    ghost predicate Valid()
      reads this
    {
      && NoDup(savedSentences)
      && NoDup(userAnswer)
      && (quizOptions != [] ==> multiset(quizOptions) == multiset(Split(quizQuestion)))
    }

    /** The initial values given to the state hooks. */
    constructor ()
      ensures Valid()
      ensures results == [] && savedSentences == []
      ensures quizQuestion == "" && quizOptions == [] && userAnswer == [] && quizResult == Unanswered
    {
      results, savedSentences := [], [];
      quizQuestion, quizOptions, userAnswer, quizResult := "", [], [], Unanswered;
    }

    /** `fetchSentences`: the literally empty input is refused before any request;
        otherwise the trimmed, lower-cased query goes to `lookup`, which gives the
        decoded example list or `None` when the request fails. Only a non-empty
        list replaces the pool, wholesale. */
    method FetchSentences(input: string, lookup: string -> Option<seq<Sentence>>)
      returns (query: Option<string>)
      requires Valid()
      modifies this`results
      ensures Valid()
      ensures query == Normalize(input)
      ensures query.None? ==> results == old(results)
      ensures query.Some? && lookup(query.value).Some? && lookup(query.value).value != []
              ==> results == lookup(query.value).value
      ensures query.Some? && (lookup(query.value).None? || lookup(query.value).value == [])
              ==> results == old(results)
    {
      query := Normalize(input);
      if query.None? {
        return;
      }
      var response := lookup(query.value);
      if response.Some? && |response.value| > 0 {
        results := response.value;
      }
    }

    /** `saveSentence`: star or unstar a sentence. */
    method SaveSentence(sentence: Sentence)
      requires Valid()
      modifies this`savedSentences
      ensures Valid()
      ensures savedSentences == Toggle(old(savedSentences), sentence)
      ensures sentence in savedSentences <==> sentence !in old(savedSentences)
    {
      ToggleKeepsNoDup(savedSentences, sentence);
      savedSentences := Toggle(savedSentences, sentence);
    }

    /** `startQuiz`: with an empty pool nothing changes (the alert); otherwise the
        sentence at `pick` becomes the question, its space-separated tokens put in
        the order `perm` gives become the buttons, and selection and result are
        cleared. `pick` and `perm` stand for the two uses of `Math.random`. */
    method StartQuiz(pick: nat, perm: seq<nat>) returns (started: bool)
      requires Valid()
      requires results != [] ==> pick < |results| && IsPermutation(perm, |Split(results[pick])|)
      modifies this`quizQuestion, this`quizOptions, this`userAnswer, this`quizResult
      ensures Valid()
      ensures started <==> results != []
      ensures !started ==> quizQuestion == old(quizQuestion) && quizOptions == old(quizOptions)
                           && userAnswer == old(userAnswer) && quizResult == old(quizResult)
      ensures started ==> quizQuestion == results[pick] && quizQuestion in results
      ensures started ==> quizOptions == Permute(Split(quizQuestion), perm)
      ensures started ==> multiset(quizOptions) == multiset(Split(quizQuestion))
                          && |quizOptions| == |Split(quizQuestion)|
      ensures started ==> userAnswer == [] && quizResult == Unanswered
    {
      if results == [] {
        return false;
      }
      var sentence := results[pick];
      PermuteKeepsTokens(Split(sentence), perm);
      quizQuestion := sentence;
      quizOptions := Permute(Split(sentence), perm);
      userAnswer := [];
      quizResult := Unanswered;
      started := true;
    }

    /** `nextQuiz`: the same steps as `startQuiz`, drawing afresh from the pool. */
    method NextQuiz(pick: nat, perm: seq<nat>) returns (started: bool)
      requires Valid()
      requires results != [] ==> pick < |results| && IsPermutation(perm, |Split(results[pick])|)
      modifies this`quizQuestion, this`quizOptions, this`userAnswer, this`quizResult
      ensures Valid()
      ensures started <==> results != []
      ensures !started ==> quizQuestion == old(quizQuestion) && quizOptions == old(quizOptions)
                           && userAnswer == old(userAnswer) && quizResult == old(quizResult)
      ensures started ==> quizQuestion == results[pick] && quizQuestion in results
      ensures started ==> quizOptions == Permute(Split(quizQuestion), perm)
      ensures started ==> multiset(quizOptions) == multiset(Split(quizQuestion))
                          && |quizOptions| == |Split(quizQuestion)|
      ensures started ==> userAnswer == [] && quizResult == Unanswered
    {
      started := StartQuiz(pick, perm);
    }

    /** `toggleWordSelection`: tapping a button selects it, tapping it again
        deselects it. The slot is not range-checked and the result line is kept. */
    method ToggleWordSelection(word: string, index: nat)
      requires Valid()
      modifies this`userAnswer
      ensures Valid()
      ensures userAnswer == ToggleSelection(old(userAnswer), word, index)
      ensures Pick(word, index) in userAnswer <==> Pick(word, index) !in old(userAnswer)
      ensures |userAnswer| == if Pick(word, index) in old(userAnswer) then |old(userAnswer)| - 1
                              else |old(userAnswer)| + 1
      ensures Without(userAnswer, Pick(word, index)) == Without(old(userAnswer), Pick(word, index))
    {
      ToggleSelectionFlips(userAnswer, word, index);
      userAnswer := ToggleSelection(userAnswer, word, index);
    }

    /** `checkQuizAnswer`: grade the selection against the question; nothing else changes,
        so grading again gives the same result. */
    method CheckQuizAnswer()
      requires Valid()
      modifies this`quizResult
      ensures Valid()
      ensures quizResult == Grade(quizQuestion, userAnswer)
      ensures quizResult == Correct <==> Join(Words(userAnswer)) == quizQuestion
      ensures quizResult == Incorrect <==> Join(Words(userAnswer)) != quizQuestion
      ensures userAnswer == old(userAnswer) && quizOptions == old(quizOptions)
              && quizQuestion == old(quizQuestion)
    {
      quizResult := Grade(quizQuestion, userAnswer);
    }

    /** A run of taps on distinct buttons, none selected yet: they are appended in order. */
    method TapAll(taps: seq<Pick>)
      requires Valid() && NoDup(userAnswer + taps)
      modifies this`userAnswer
      ensures Valid()
      ensures userAnswer == old(userAnswer) + taps
    {
      var i := 0;
      while i < |taps|
        invariant 0 <= i <= |taps|
        invariant Valid()
        invariant userAnswer == old(userAnswer) + taps[..i]
      {
        ghost var before := userAnswer;
        assert before + taps[i..] == old(userAnswer) + taps by {
          assert taps == taps[..i] + taps[i..];
        }
        NoDupUnique(old(userAnswer) + taps, |old(userAnswer)| + i);
        assert (old(userAnswer) + taps)[..|old(userAnswer)| + i] == before;
        assert (old(userAnswer) + taps)[|old(userAnswer)| + i] == taps[i];
        ToggleWordSelection(taps[i].word, taps[i].index);
        assert taps[..i + 1] == taps[..i] + [taps[i]];
        i := i + 1;
      }
      assert taps[..|taps|] == taps;
    }

    /** Solving a freshly scrambled quiz: tap, for each token of the sentence in
        order, the button it was scrambled to, then check. */
    method Solve(perm: seq<nat>)
      requires Valid() && userAnswer == []
      requires IsPermutation(perm, |Split(quizQuestion)|)
      requires quizOptions == Permute(Split(quizQuestion), perm)
      modifies this`userAnswer, this`quizResult
      ensures Valid()
      ensures userAnswer == AnswerKey(Split(quizQuestion), perm)
      ensures quizResult == Correct
    {
      var key := AnswerKey(Split(quizQuestion), perm);
      Completeness(quizQuestion, perm);
      assert NoDup(key);
      assert userAnswer + key == key;
      TapAll(key);
      CheckQuizAnswer();
    }

    /** `restartQuiz`: clear the selection and the result; the buttons keep their order. */
    method RestartQuiz()
      requires Valid()
      modifies this`userAnswer, this`quizResult
      ensures Valid()
      ensures userAnswer == [] && quizResult == Unanswered
      ensures quizQuestion == old(quizQuestion) && quizOptions == old(quizOptions)
              && results == old(results)
    {
      userAnswer := [];
      quizResult := Unanswered;
    }
  }

  /** A whole round on the screen, for any search text, any examples the lookup
      returns and any scramble: search, quiz on the first example, tap the buttons
      that rebuild the sentence, check, then restart. The check reports correct,
      and the restart clears the result while keeping the buttons. */
  method Round(input: string, examples: seq<Sentence>, perm: seq<nat>)
    returns (graded: Outcome, restarted: Outcome, sameButtons: bool)
    requires input != "" && examples != []
    requires IsPermutation(perm, |Split(examples[0])|)
    ensures graded == Correct
    ensures restarted == Unanswered
    ensures sameButtons
  {
    var s := new Session();
    var query := s.FetchSentences(input, q => Some(examples));
    var started := s.StartQuiz(0, perm);
    s.Solve(perm);
    graded := s.quizResult;
    var shown := s.quizOptions;
    s.RestartQuiz();
    restarted := s.quizResult;
    sameButtons := s.quizOptions == shown && s.userAnswer == [];
  }
}
