# Word-order quiz engine of the example-sentence app

The app is a single React Native screen, `App.js`. A learner types a word,
and the app fetches example sentences for it. The learner can star sentences
into a scrapbook. The learner can also take a quiz: one example sentence is
split on spaces and its words are shown as shuffled buttons. The learner taps
the buttons to rebuild the sentence, then checks the answer, restarts, or
moves on to the next sentence.

This project models the state machine behind the screen's event handlers. It
has six modules:

- `Text` (`text.dfy`) models JavaScript's `split(' ')`, `join(' ')`, `trim()`
  and `toLowerCase()` as functions. It also holds the query normalisation
  that comes before a lookup.
- `Scrapbook` (`scrapbook.dfy`) models the star toggle on the list of saved
  sentences.
- `Quiz` (`quiz.dfy`) models the scramble, the learner's selection of
  `(word, slot)` pairs, and grading. It also proves that grading is complete:
  every scramble can be solved.
- `App` (`session.dfy`) is a `Session` class. Its fields are the screen's
  state variables (`results`, `savedSentences`, `quizQuestion`,
  `quizOptions`, `userAnswer`, `quizResult`). Each handler is a method that
  overwrites those fields, as the setters do. Its ghost `Valid()` predicate
  is the invariant every handler keeps: no duplicate star, no duplicate
  selection, and once a quiz exists the buttons hold exactly the sentence's
  tokens.
- `Seqs` (`seqs.dfy`) and `Wrappers` (`wrappers.dfy`) are helpers: a
  filter-out function with its lemmas, a no-duplicates predicate, and an
  `Option` type.

Randomness is passed in as parameters. `StartQuiz` and `NextQuiz` take `pick`
in place of `Math.floor(Math.random() * results.length)`. They also take
`perm`, the order that `sort(() => Math.random() - 0.5)` produced, written as
a permutation of token positions. The network request and the decoding of its
answer are a parameter `lookup` of `FetchSentences`. `lookup` returns the
decoded list, or `None` when the request fails.

Where the code and a tidier design differ, the model follows the code:

- A query made only of whitespace passes the `!input` guard and is sent as
  `""`. Only the literally empty input is refused.
- `restartQuiz` clears the selection and the result but does not reshuffle.
- `toggleWordSelection` does not check the slot index and does not reset the
  result line.
- The scrapbook is a list in starring order. Unstarring filters out every
  equal entry.
- A failed request and an empty answer both leave `results` unchanged. Only
  the alert text differs.
- Grading compares against `quizQuestion.split(' ').join(' ')`, which is
  always `quizQuestion` (`JoinSplit`). So sentences with irregular spacing can
  still be solved: adjacent spaces become empty-word buttons (`Completeness`).

## Model

| member | source | states |
|---|---|---|
| `Text.Split` | App.js:55 | `split(' ')` always gives at least one token, and no token contains a space |
| `Text.JoinSplit` | App.js:82 | joining the space-split tokens with single spaces gives back the original string, so the answer key equals `quizQuestion` |
| `Text.Join` | App.js:82-83 | `join(' ')`: no parts give `""`; otherwise the result starts with the first part, followed by a space when more parts come; `JoinSplit` and `SplitJoin` make it the inverse of `split(' ')` |
| `Text.SplitJoin` | App.js:82-85 | a non-empty list of space-free words survives a join followed by a split |
| `Text.SplitAround` | App.js:82 | splitting at one space splits the token lists of both sides apart |
| `Text.SplitWithoutSpace` | App.js:55 | a string with no space is one token |
| `Text.Leading` | App.js:21 | counts the leading characters `trim()` removes: all of them are whitespace, and the next character is not |
| `Text.Trailing` | App.js:21 | counts the trailing characters `trim()` removes: all of them are whitespace, and the character before them is not |
| `Text.Trim` | App.js:21 | `trim()` yields a slice of the input that does not start or end with whitespace, and everything cut off either side is whitespace |
| `Text.TrimEmptyIffAllSpace` | App.js:21 | `trim()` gives `""` exactly when the input is all whitespace |
| `Text.ToLower` | App.js:21 | ASCII-only `toLowerCase()` keeps the length, leaves no ASCII capital, maps each capital to its small letter, keeps every other character, and keeps whitespace where it was |
| `Text.Canonical` | App.js:21 | `trim().toLowerCase()` gives a normal query: no surrounding whitespace and no capitals |
| `Text.Normalize` | App.js:19-21 | the input is rejected exactly when it is literally empty; otherwise the query is normal and no longer than the input |
| `Text.CanonicalFixesNormal` | App.js:21 | normalising a query that is already normal changes nothing |
| `Text.CanonicalIdempotent` | App.js:21 | normalising twice is the same as normalising once |
| `Text.WhitespaceOnlyAccepted` | App.js:19-21 | a non-empty, whitespace-only input is accepted and becomes the empty query |
| `Seqs.Without` | App.js:46 | the `filter` that unstars: every copy of the value is dropped, and every other value is kept as often as it occurred (multiset contract) |
| `Scrapbook.Toggle` | App.js:44-50 | after `saveSentence(s)`, `s` is saved exactly when it was not saved before; an unsaved `s` is appended at the end; every other sentence keeps its place in the order |
| `Scrapbook.ToggleKeepsNoDup` | App.js:44-50 | a scrapbook without duplicates stays without duplicates |
| `Scrapbook.ToggleTwiceAbsent` | App.js:44-50 | starring an unsaved sentence and unstarring it again restores the list exactly |
| `Scrapbook.ToggleTwicePresent` | App.js:44-50 | unstarring a saved sentence and starring it again keeps the same sentences, with that one moved to the end |
| `Quiz.Permute` | App.js:55 | the shuffled `words`: as many buttons as tokens; `PermuteKeepsTokens` proves they are the same multiset |
| `Quiz.PermuteKeepsTokens` | App.js:55 | the scrambled buttons are the sentence's tokens: the same length and the same multiset |
| `Quiz.FindIndex` | App.js:66 | `findIndex` returns -1 exactly when the pick is absent; otherwise it returns the first position that holds the pick |
| `Quiz.ToggleSelection` | App.js:63-76 | toggling changes the selection's length by exactly one (down if the pick was there, up if not); an unselected pick is appended at the end; every other entry keeps its relative order |
| `Quiz.ToggleSelectionFlips` | App.js:63-76 | on a selection without duplicates, the `(word, index)` pair is selected afterwards exactly when it was not before, and no pair appears twice |
| `Quiz.ToggleAll` | App.js:304-311 | a run of taps on the buttons: each tap adds or removes one entry, so the length moves by at most the number of taps |
| `Quiz.ToggleAllAppends` | App.js:304-311 | tapping distinct, unselected buttons appends them in tap order |
| `Quiz.Words` | App.js:83 | `userAnswer.map(item => item.word)`: one word per selected entry, in selection order |
| `Quiz.Grade` | App.js:81-90 | the result is correct exactly when the selected words, joined with single spaces in selection order, equal `quizQuestion`; otherwise it is incorrect |
| `Quiz.GradeSound` | App.js:81-90 | a correct grade on a non-empty selection of space-free words means the selected words are exactly the sentence's tokens, in order |
| `Quiz.EmptySelectionGrade` | App.js:81-90 | the empty selection grades correct exactly when the sentence is empty (which splits into one empty token) |
| `Quiz.AnswerKeyUsesSlots` | App.js:304-311 | the answer key only presses buttons that are displayed, with the word they show, and no slot twice |
| `Quiz.Completeness` | App.js:82-85 | for every sentence and every scramble, tapping the answer key's buttons from an empty selection rebuilds the token sequence and grades correct |
| `App.Session.constructor` | App.js:7-16 | the initial state: every list empty, empty question, result cleared |
| `App.Session.FetchSentences` | App.js:18-42 | a literally empty input makes no request; otherwise the normalised query is looked up, a non-empty answer replaces `results` wholesale, and an empty answer or a failed request leaves `results` unchanged |
| `App.Session.SaveSentence` | App.js:44-50 | the scrapbook becomes the toggled list, and the sentence's saved state flips |
| `App.Session.StartQuiz` | App.js:52-61 | with no results nothing changes; otherwise the question is a member of `results`, the buttons are a permutation of its tokens, and the selection and result are cleared |
| `App.Session.NextQuiz` | App.js:98-107 | the same transition as starting a quiz |
| `App.Session.ToggleWordSelection` | App.js:63-76 | the pair's selected state flips, the length changes by one, the other entries keep their order, and the selection stays free of duplicates |
| `App.Session.TapAll` | App.js:304-311 | a run of taps on distinct, unselected buttons appends them in tap order |
| `App.Session.CheckQuizAnswer` | App.js:81-90 | the result is correct exactly when the joined selection equals the question; the selection, buttons and question are unchanged, so checking again gives the same result |
| `App.Session.Solve` | App.js:304-311 | on a freshly scrambled quiz, tapping the answer key and checking gives correct |
| `App.Session.RestartQuiz` | App.js:92-96 | the selection is emptied and the result cleared; the question, the buttons (no reshuffle) and `results` are unchanged |
| `App.Round` | App.js:18-96 | for any non-empty search text, any examples and any scramble: search, start, solve and check give correct, and restart then clears the result while keeping the same buttons |

## Left out

- Rendering, the style table, icons and the modal visibility flags
  (`quizVisible`, `scrapbookVisible`, `toggleScrapbook`) are presentation
  only. The `includes` and `some` calls in the render code are plain
  membership tests on the lists that the model holds.
- The HTTP request, `async`/`await`, the `loading` flag, and the race between
  overlapping fetches are I/O and concurrency. `lookup` stands for one
  completed request, with the request failing as `None`.
- `encodeURIComponent`/`decodeURIComponent` are JavaScript built-ins. The
  decoded sentences are taken as opaque strings from `lookup`.
- `Math.random`, and how biased the random-comparator shuffle is, cannot be
  stated without floating point. The chosen index and the resulting order are
  parameters. The model says nothing about their distribution.
- Alerts and console logging are modelled only as "no state change".
- The result line's two messages are the values `Correct` and `Incorrect`.
  The empty string is `Unanswered`.
- `Text.ToLower`: lower-cases only the ASCII capitals `A`–`Z`. JavaScript's
  `toLowerCase` uses full Unicode case mapping, which is not modelled. Full
  case mapping can lengthen a string (U+0130 becomes two code points), so the
  clause `|r| == |s|` holds for this model only.
- `Text.Normalize`: the clause that the query is no longer than the input
  holds for the ASCII-only lower-casing; with full Unicode case mapping it
  can fail.
- `Text.Leading`: uses the ECMAScript whitespace and line-terminator
  characters that `trim()` removes, with the space-separator category written
  out as its code points. Those code points come from the Unicode version the
  model was written against.
