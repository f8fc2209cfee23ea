/** The scrapbook: the list of starred sentences and its star toggle. */
module Scrapbook {
  import opened Seqs

  type Sentence = string

  /** The list `saveSentence` writes back: every copy of `s` filtered out when it is
      already saved, otherwise `s` appended at the end. */
  function Toggle(saved: seq<Sentence>, s: Sentence): (r: seq<Sentence>)
    ensures s in r <==> s !in saved
    ensures s !in saved ==> r == saved + [s]
    ensures Without(r, s) == Without(saved, s)
  {
    if s in saved then
      WithoutCounts(saved, s);
      WithoutAbsent(Without(saved, s), s);
      Without(saved, s)
    else
      WithoutDropOne(saved, s, []);
      assert saved + [s] + [] == saved + [s] && saved + [] == saved;
      saved + [s]
  }

  /** A scrapbook without duplicates never gets one. */
  lemma ToggleKeepsNoDup(saved: seq<Sentence>, s: Sentence)
    requires NoDup(saved)
    ensures NoDup(Toggle(saved, s))
  {
    if s in saved {
      WithoutNoDup(saved, s);
    } else {
      AppendFresh(saved, s);
    }
  }

  /** Starring a sentence that was not saved and unstarring it again restores the list. */
  lemma ToggleTwiceAbsent(saved: seq<Sentence>, s: Sentence)
    requires s !in saved
    ensures Toggle(Toggle(saved, s), s) == saved
  {
    var once := Toggle(saved, s);
    assert once == saved + [s];
    WithoutDropOne(saved, s, []);
    assert saved + [s] + [] == once && saved + [] == saved;
    WithoutAbsent(saved, s);
  }

  /** Unstarring a saved sentence and starring it again keeps the same sentences,
      but moves that one to the end. */
  lemma ToggleTwicePresent(saved: seq<Sentence>, s: Sentence)
    requires s in saved
    ensures Toggle(Toggle(saved, s), s) == Without(saved, s) + [s]
    ensures forall t :: t in Toggle(Toggle(saved, s), s) <==> t in saved
  {
    var once := Toggle(saved, s);
    assert once == Without(saved, s);
    var twice := once + [s];
    WithoutCounts(saved, s);
    forall t ensures t in twice <==> t in saved {
      if t != s {
        assert t in twice <==> t in once;
        assert t in once <==> multiset(once)[t] > 0;
        assert t in saved <==> multiset(saved)[t] > 0;
      }
    }
  }
}
