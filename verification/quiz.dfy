/** The word-order quiz: scrambling a sentence's tokens, the learner's selection
    of (word, slot) pairs, and grading. */
module Quiz {
  import opened Seqs
  import opened Text

  /** One selected button: the word shown and its slot in the scrambled options. */
  datatype Pick = Pick(word: string, index: nat)

  /** The three values of the result line: cleared, praised or "try again". */
  datatype Outcome = Unanswered | Correct | Incorrect

  // ---------------------------------------------------------------------------
  // Scrambling
  // ---------------------------------------------------------------------------

  /** `[0, 1, ..., n - 1]`. */
  function Indices(n: nat): (r: seq<nat>)
    ensures |r| == n && forall k :: 0 <= k < n ==> r[k] == k
  {
    if n == 0 then [] else Indices(n - 1) + [n - 1]
  }

  /** `perm` lists every position below `n` exactly once, in some order. It stands
      for the order the random-comparator sort happens to produce. */
  predicate IsPermutation(perm: seq<nat>, n: nat) {
    multiset(perm) == multiset(Indices(n))
  }

  lemma PermutationBounds(perm: seq<nat>, n: nat)
    requires IsPermutation(perm, n)
    ensures |perm| == n
    ensures forall k :: 0 <= k < |perm| ==> perm[k] < n
    ensures forall j :: 0 <= j < n ==> j in perm
  {
    assert |perm| == |multiset(perm)| == |multiset(Indices(n))| == n;
    forall k | 0 <= k < |perm| ensures perm[k] < n {
      assert perm[k] in multiset(Indices(n));
    }
    forall j | 0 <= j < n ensures j in perm {
      assert Indices(n)[j] == j;
      assert j in multiset(Indices(n));
    }
  }

  /** The scrambled options: slot `k` shows token `perm[k]`. */
  function Permute(tokens: seq<string>, perm: seq<nat>): (r: seq<string>)
    requires IsPermutation(perm, |tokens|)
    ensures |r| == |tokens|
  {
    PermutationBounds(perm, |tokens|);
    seq(|perm|, k requires 0 <= k < |perm| => tokens[perm[k]])
  }

  /** Taking the largest position out of a permutation leaves a permutation of the rest. */
  lemma DropLargest(perm: seq<nat>, n: nat, k: nat)
    requires IsPermutation(perm, n + 1) && k < |perm| && perm[k] == n
    ensures IsPermutation(perm[..k] + perm[k + 1..], n)
  {
    var rest := perm[..k] + perm[k + 1..];
    assert perm == perm[..k] + [n] + perm[k + 1..];
    assert multiset(perm) == multiset(rest) + multiset{n};
    assert Indices(n + 1) == Indices(n) + [n];
    assert multiset(Indices(n + 1)) == multiset(Indices(n)) + multiset{n};
    assert multiset(rest) == multiset(perm) - multiset{n};
    assert multiset(rest) == multiset(Indices(n)) + multiset{n} - multiset{n};
  }

  /** With the largest position at slot `k`, the scramble is the scramble of the
      other tokens with the last token put back at slot `k`. */
  lemma PermuteAroundLast(tokens: seq<string>, perm: seq<nat>, k: nat)
    requires |tokens| > 0 && IsPermutation(perm, |tokens|)
    requires k < |perm| && perm[k] == |tokens| - 1
    requires IsPermutation(perm[..k] + perm[k + 1..], |tokens| - 1)
    ensures var q := Permute(tokens[..|tokens| - 1], perm[..k] + perm[k + 1..]);
            Permute(tokens, perm) == q[..k] + [tokens[|tokens| - 1]] + q[k..]
  {
    var m := |tokens| - 1;
    var rest := perm[..k] + perm[k + 1..];
    PermutationBounds(perm, m + 1);
    PermutationBounds(rest, m);
    var p, q := Permute(tokens, perm), Permute(tokens[..m], rest);
    forall j | 0 <= j < k ensures p[j] == q[j] {
      assert rest[j] == perm[j];
    }
    forall j | k < j <= m ensures p[j] == q[j - 1] {
      assert rest[j - 1] == perm[j];
    }
  }

  /** Scrambling keeps every token as often as it occurs, and nothing else. */
  lemma {:induction false} PermuteKeepsTokens(tokens: seq<string>, perm: seq<nat>)
    requires IsPermutation(perm, |tokens|)
    ensures |Permute(tokens, perm)| == |tokens|
    ensures multiset(Permute(tokens, perm)) == multiset(tokens)
  {
    PermutationBounds(perm, |tokens|);
    if |tokens| > 0 {
      var m := |tokens| - 1;
      assert m in perm;
      var k :| 0 <= k < |perm| && perm[k] == m;
      var rest := perm[..k] + perm[k + 1..];
      DropLargest(perm, m, k);
      PermuteKeepsTokens(tokens[..m], rest);
      PermuteAroundLast(tokens, perm, k);
      var q := Permute(tokens[..m], rest);
      assert q == q[..k] + q[k..];
      assert tokens == tokens[..m] + [tokens[m]];
    }
  }

  // ---------------------------------------------------------------------------
  // The selection
  // ---------------------------------------------------------------------------

  /** `findIndex` on the selection: the first position holding `p`, or -1. */
  function FindIndex(sel: seq<Pick>, p: Pick): (i: int)
    ensures -1 <= i < |sel|
    ensures i == -1 <==> p !in sel
    ensures i >= 0 ==> sel[i] == p && p !in sel[..i]
  {
    if sel == [] then -1
    else if sel[0] == p then 0
    else
      var i := FindIndex(sel[1..], p);
      assert sel[1..] == sel[1..][..|sel| - 1];
      if i == -1 then -1
      else
        assert sel[..i + 1] == [sel[0]] + sel[1..][..i];
        i + 1
  }

  /** The selection `toggleWordSelection(word, index)` writes back: the first entry
      equal to the pick removed when there is one, otherwise the pick appended. */
  function ToggleSelection(sel: seq<Pick>, word: string, index: nat): (r: seq<Pick>)
    ensures |r| == if Pick(word, index) in sel then |sel| - 1 else |sel| + 1
    ensures Pick(word, index) !in sel ==> r == sel + [Pick(word, index)]
    ensures Without(r, Pick(word, index)) == Without(sel, Pick(word, index))
  {
    var p := Pick(word, index);
    var i := FindIndex(sel, p);
    if i != -1 then
      assert sel == sel[..i] + [p] + sel[i + 1..];
      WithoutDropOne(sel[..i], p, sel[i + 1..]);
      sel[..i] + sel[i + 1..]
    else
      WithoutDropOne(sel, p, []);
      assert sel + [p] + [] == sel + [p] && sel + [] == sel;
      sel + [p]
  }

  /** On a duplicate-free selection the toggle flips the pick's membership and keeps
      the selection duplicate-free. */
  lemma ToggleSelectionFlips(sel: seq<Pick>, word: string, index: nat)
    requires NoDup(sel)
    ensures Pick(word, index) in ToggleSelection(sel, word, index) <==> Pick(word, index) !in sel
    ensures NoDup(ToggleSelection(sel, word, index))
  {
    var p := Pick(word, index);
    var i := FindIndex(sel, p);
    if i != -1 {
      NoDupUnique(sel, i);
      assert sel == sel[..i] + [p] + sel[i + 1..];
      WithoutAround(sel[..i], p, sel[i + 1..]);
      WithoutNoDup(sel, p);
    } else {
      AppendFresh(sel, p);
    }
  }

  /** A run of toggles, one per tap: each tap adds or removes exactly one entry. */
  function ToggleAll(sel: seq<Pick>, taps: seq<Pick>): (r: seq<Pick>)
    ensures |sel| <= |r| + |taps| && |r| <= |sel| + |taps|
    decreases |taps|
  {
    if taps == [] then sel
    else ToggleAll(ToggleSelection(sel, taps[0].word, taps[0].index), taps[1..])
  }

  /** Tapping distinct, unselected buttons appends them in tap order. */
  lemma {:induction false} ToggleAllAppends(sel: seq<Pick>, taps: seq<Pick>)
    requires NoDup(sel + taps)
    ensures ToggleAll(sel, taps) == sel + taps
    decreases |taps|
  {
    if taps != [] {
      var p := taps[0];
      assert (sel + taps)[|sel|] == p;
      NoDupUnique(sel + taps, |sel|);
      assert (sel + taps)[..|sel|] == sel;
      assert sel + [p] + taps[1..] == sel + taps;
      assert ToggleSelection(sel, p.word, p.index) == sel + [p];
      ToggleAllAppends(sel + [p], taps[1..]);
    }
  }

  // ---------------------------------------------------------------------------
  // Grading
  // ---------------------------------------------------------------------------

  /** `userAnswer.map(item => item.word)`: the selected words in selection order. */
  function Words(sel: seq<Pick>): (r: seq<string>)
    ensures |r| == |sel| && forall k :: 0 <= k < |sel| ==> r[k] == sel[k].word
  {
    seq(|sel|, k requires 0 <= k < |sel| => sel[k].word)
  }

  /** `checkQuizAnswer`: the selected words joined with single spaces, compared with
      the sentence split on spaces and joined again. */
  function Grade(question: string, sel: seq<Pick>): (r: Outcome)
    ensures r != Unanswered
    ensures r == Correct <==> Join(Words(sel)) == question
  {
    JoinSplit(question);
    if Join(Words(sel)) == Join(Split(question)) then Correct else Incorrect
  }

  /** A correct grade means the selected words are the sentence's own tokens in
      order, as long as none of them holds a space and something was selected. */
  lemma GradeSound(question: string, sel: seq<Pick>)
    requires Grade(question, sel) == Correct
    requires |sel| > 0
    requires forall k :: 0 <= k < |sel| ==> Space !in sel[k].word
    ensures Words(sel) == Split(question)
  {
    SplitJoin(Words(sel));
  }

  /** The empty selection grades correct exactly for the empty sentence, which
      splits into one empty token; hence `GradeSound` needs a non-empty selection. */
  lemma EmptySelectionGrade(question: string)
    ensures Split("") == [""]
    ensures Grade(question, []) == Correct <==> question == ""
  {
    assert Words([]) == [];
  }

  /** The slot where token `j` was put. */
  function SlotOf(perm: seq<nat>, j: nat): (k: nat)
    requires j in perm
    ensures k < |perm| && perm[k] == j
  {
    if perm[0] == j then 0 else 1 + SlotOf(perm[1..], j)
  }

  /** The selection that taps, for each token of the sentence in order, the slot
      that token was scrambled into. */
  function AnswerKey(tokens: seq<string>, perm: seq<nat>): seq<Pick>
    requires IsPermutation(perm, |tokens|)
  {
    PermutationBounds(perm, |tokens|);
    seq(|tokens|, j requires 0 <= j < |tokens| => Pick(tokens[j], SlotOf(perm, j)))
  }

  /** Each entry of the answer key is a displayed button, and no slot is used twice. */
  lemma AnswerKeyUsesSlots(tokens: seq<string>, perm: seq<nat>)
    requires IsPermutation(perm, |tokens|)
    ensures var options, key := Permute(tokens, perm), AnswerKey(tokens, perm);
            && |key| == |tokens|
            && (forall k :: 0 <= k < |key| ==>
                  key[k].index < |options| && options[key[k].index] == key[k].word)
            && (forall i, j :: 0 <= i < j < |key| ==> key[i].index != key[j].index)
  {
    PermutationBounds(perm, |tokens|);
    var key := AnswerKey(tokens, perm);
    forall i, j | 0 <= i < j < |key| ensures key[i].index != key[j].index {
      assert perm[key[i].index] == i && perm[key[j].index] == j;
    }
  }

  /** Grading is complete: whatever the scramble, some sequence of taps on the
      displayed buttons, each slot at most once, rebuilds the sentence and grades
      correct. */
  lemma Completeness(question: string, perm: seq<nat>)
    requires IsPermutation(perm, |Split(question)|)
    ensures var options := Permute(Split(question), perm);
            var key := AnswerKey(Split(question), perm);
            && (forall k :: 0 <= k < |key| ==>
                  key[k].index < |options| && options[key[k].index] == key[k].word)
            && (forall i, j :: 0 <= i < j < |key| ==> key[i].index != key[j].index)
            && ToggleAll([], key) == key
            && Words(key) == Split(question)
            && Grade(question, key) == Correct
  {
    var tokens := Split(question);
    var key := AnswerKey(tokens, perm);
    AnswerKeyUsesSlots(tokens, perm);
    assert NoDup([] + key) by {
      assert [] + key == key;
    }
    ToggleAllAppends([], key);
    assert Words(key) == tokens;
    JoinSplit(question);
  }
}
