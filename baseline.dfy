/**
 * The baseline tagger: count every (word, tag) pair and every tag of the
 * training corpus, then give each test word the tag it was seen with most
 * often, or the most frequent tag overall when the word was never seen.
 * The tagger only compares words and tags for equality and uses them as
 * dictionary keys, so they are kept as type parameters W and T here.
 */
module Baseline {
  import opened Corpus
  import opened Counters

  /**
   * `max(c, key=c.get)` over a non-empty Counter of tags: the key ArgMax
   * picks, the first of greatest count in insertion order.
   */
  function MostFrequent<T(==, !new)>(c: Counter<T>): (t: T)
    requires |c.keys| > 0
    ensures t in c.keys
  {
    c.keys[ArgMax(c)]
  }

  /** In a well-formed Counter no key, stored or not, counts more than MostFrequent. */
  lemma MostFrequentIsMax<T(!new)>(c: Counter<T>)
    requires Valid(c) && |c.keys| > 0
    ensures forall k :: Get(c, k) <= Get(c, MostFrequent(c))
  {
    ArgMaxSpec(c);
    assert forall k :: k !in c.keys ==> Get(c, k) == 0;
  }

  /** The two tables of the training loop: `seen[word]` and `tags`. */
  datatype Tables<W, T> = Tables(seen: map<W, Counter<T>>, tags: Counter<T>)

  /** Every row of `seen` has counted at least one tag. */
  ghost predicate RowsNonEmpty<W(!new), T(!new)>(m: Tables<W, T>)
  {
    forall w :: w in m.seen ==> |m.seen[w].keys| > 0
  }

  /** One iteration of the training loop: `seen[word][tag] += 1; tags[tag] += 1`. */
  function Record<W(==, !new), T(==, !new)>(m: Tables<W, T>, p: (W, T)): Tables<W, T>
  {
    var row := if p.0 in m.seen then m.seen[p.0] else Empty();
    Tables(m.seen[p.0 := Inc(row, p.1)], Inc(m.tags, p.1))
  }

  /** The tables after the training loop has read the tokens `ps` in order. */
  function Trained<W(==, !new), T(==, !new)>(ps: seq<(W, T)>): (m: Tables<W, T>)
    ensures RowsNonEmpty(m)
    ensures |m.tags.keys| == 0 <==> |ps| == 0
  {
    if |ps| == 0 then Tables(map[], Empty()) else Record(Trained(ps[..|ps| - 1]), ps[|ps| - 1])
  }

  lemma TrainedSnoc<W(!new), T(!new)>(ps: seq<(W, T)>, p: (W, T))
    ensures Trained(ps + [p]) == Record(Trained(ps), p)
  {
    assert (ps + [p])[..|ps|] == ps;
  }

  /**
   * The test loop's choice for one word: the most frequent tag of `seen[w]`
   * for a seen word, of `tags` otherwise; `max` of an empty `tags` raises
   * ValueError.
   */
  function Choose<W(==, !new), T(==, !new)>(m: Tables<W, T>, w: W): Result<T>
    requires RowsNonEmpty(m)
  {
    if w in m.seen then Ok(MostFrequent(m.seen[w]))
    else if |m.tags.keys| == 0 then Err(ValueError)
    else Ok(MostFrequent(m.tags))
  }

  /** One test sentence tagged word by word; the first failing word ends it. */
  function TagWords<W(==, !new), T(==, !new)>(m: Tables<W, T>, sentence: seq<W>): (r: Result<seq<(W, T)>>)
    requires RowsNonEmpty(m)
  {
    if |sentence| == 0 then Ok([])
    else
      var prev, w := TagWords(m, sentence[..|sentence| - 1]), sentence[|sentence| - 1];
      if prev.Err? then prev
      else if Choose(m, w).Err? then Err(Choose(m, w).error)
      else Ok(prev.value + [(w, Choose(m, w).value)])
  }

  /** Every test sentence tagged in turn; the first failing sentence ends it. */
  function Tagging<W(==, !new), T(==, !new)>(m: Tables<W, T>, test: seq<seq<W>>): (r: Result<seq<seq<(W, T)>>>)
    requires RowsNonEmpty(m)
  {
    if |test| == 0 then Ok([])
    else
      var prev, s := Tagging(m, test[..|test| - 1]), test[|test| - 1];
      if prev.Err? then prev
      else if TagWords(m, s).Err? then Err(TagWords(m, s).error)
      else Ok(prev.value + [TagWords(m, s).value])
  }

  lemma TagWordsSnoc<W(!new), T(!new)>(m: Tables<W, T>, sentence: seq<W>, j: nat)
    requires RowsNonEmpty(m) && j < |sentence|
    ensures TagWords(m, sentence[..j + 1]) ==
      if TagWords(m, sentence[..j]).Err? then TagWords(m, sentence[..j])
      else if Choose(m, sentence[j]).Err? then Err(Choose(m, sentence[j]).error)
      else Ok(TagWords(m, sentence[..j]).value + [(sentence[j], Choose(m, sentence[j]).value)])
  {
    assert sentence[..j + 1][..j] == sentence[..j];
  }

  /** Once a prefix of the sentence fails, the whole sentence fails the same way. */
  lemma {:induction false} TagWordsErr<W(!new), T(!new)>(m: Tables<W, T>, sentence: seq<W>, j: nat)
    requires RowsNonEmpty(m) && j <= |sentence|
    requires TagWords(m, sentence[..j]).Err?
    ensures TagWords(m, sentence) == TagWords(m, sentence[..j])
  {
    if j < |sentence| {
      var init := sentence[..|sentence| - 1];
      assert init[..j] == sentence[..j];
      TagWordsErr(m, init, j);
    } else {
      assert sentence[..j] == sentence;
    }
  }

  lemma TaggingSnoc<W(!new), T(!new)>(m: Tables<W, T>, test: seq<seq<W>>, i: nat)
    requires RowsNonEmpty(m) && i < |test|
    ensures Tagging(m, test[..i + 1]) ==
      if Tagging(m, test[..i]).Err? then Tagging(m, test[..i])
      else if TagWords(m, test[i]).Err? then Err(TagWords(m, test[i]).error)
      else Ok(Tagging(m, test[..i]).value + [TagWords(m, test[i]).value])
  {
    assert test[..i + 1][..i] == test[..i];
  }

  /** Once a prefix of the test corpus fails, the whole of it fails the same way. */
  lemma {:induction false} TaggingErr<W(!new), T(!new)>(m: Tables<W, T>, test: seq<seq<W>>, i: nat)
    requires RowsNonEmpty(m) && i <= |test|
    requires Tagging(m, test[..i]).Err?
    ensures Tagging(m, test) == Tagging(m, test[..i])
  {
    if i < |test| {
      var init := test[..|test| - 1];
      assert init[..i] == test[..i];
      TaggingErr(m, init, i);
    } else {
      assert test[..i] == test;
    }
  }

  /** The tables as counts: `tags` tallies every tag, `seen[w]` the tags of `w`. */
  ghost predicate Counted<W(!new), T(!new)>(ps: seq<(W, T)>, m: Tables<W, T>)
  {
    && m.tags == Tally(Tags(ps))
    && (forall w :: w in m.seen <==> HasWord(ps, w))
    && (forall w :: w in m.seen ==> m.seen[w] == Tally(TagsOfWord(ps, w)))
  }

  /** The word's own row, after one more token of that word. */
  lemma RowSnoc<W(!new), T(!new)>(ps: seq<(W, T)>, row: Counter<T>, word: W, tag: T)
    requires row == Tally(TagsOfWord(ps, word))
    ensures Inc(row, tag) == Tally(TagsOfWord(ps + [(word, tag)], word))
  {
    TagsOfWordSnoc(ps, (word, tag), word);
    TallySnoc(TagsOfWord(ps, word), tag);
  }

  /** Any other word's row, after one more token. */
  lemma OtherRowSnoc<W(!new), T(!new)>(ps: seq<(W, T)>, w: W, word: W, tag: T)
    requires w != word
    ensures TagsOfWord(ps + [(word, tag)], w) == TagsOfWord(ps, w)
  {
    TagsOfWordSnoc(ps, (word, tag), w);
  }

  lemma SeenKeysSnoc<W(!new), T(!new)>(ps: seq<(W, T)>, seen: map<W, Counter<T>>, word: W, tag: T, row: Counter<T>)
    requires forall w :: w in seen <==> HasWord(ps, w)
    ensures forall w :: w in seen[word := row] <==> HasWord(ps + [(word, tag)], w)
  {
    forall w ensures HasWord(ps + [(word, tag)], w) <==> HasWord(ps, w) || w == word {
      HasWordSnoc(ps, (word, tag), w);
    }
  }

  lemma SeenRowsSnoc<W(!new), T(!new)>(ps: seq<(W, T)>, seen: map<W, Counter<T>>, word: W, tag: T)
    requires forall w :: w in seen <==> HasWord(ps, w)
    requires forall w :: w in seen ==> seen[w] == Tally(TagsOfWord(ps, w))
    ensures var row := if word in seen then seen[word] else Empty();
      forall w :: w in seen[word := Inc(row, tag)] ==>
        seen[word := Inc(row, tag)][w] == Tally(TagsOfWord(ps + [(word, tag)], w))
  {
    var row := if word in seen then seen[word] else Empty();
    if word !in seen {
      TagsOfWordEmpty(ps, word);
    }
    RowSnoc(ps, row, word, tag);
    forall w | w in seen && w != word {
      OtherRowSnoc(ps, w, word, tag);
    }
  }

  /** Recording one more token keeps the tables the counts of the longer stream. */
  lemma CountedSnoc<W(!new), T(!new)>(ps: seq<(W, T)>, m: Tables<W, T>, p: (W, T))
    requires Counted(ps, m)
    ensures Counted(ps + [p], Record(m, p))
  {
    var (word, tag) := p;
    var row := if word in m.seen then m.seen[word] else Empty();
    var qs, seen', tags' := ps + [p], m.seen[word := Inc(row, tag)], Inc(m.tags, tag);
    assert Record(m, p) == Tables(seen', tags');
    TagsSnoc(ps, p);
    TallySnoc(Tags(ps), tag);
    assert tags' == Tally(Tags(qs));
    SeenKeysSnoc(ps, m.seen, word, tag, Inc(row, tag));
    assert forall w :: w in seen' <==> HasWord(qs, w);
    SeenRowsSnoc(ps, m.seen, word, tag);
    assert forall w :: w in seen' ==> seen'[w] == Tally(TagsOfWord(qs, w));
  }

  /**
   * After training, `tags` counts every tag of the corpus, `seen` holds
   * exactly its words, and `seen[w]` counts the tags `w` was seen with.
   */
  lemma {:induction false} TrainedCounts<W(!new), T(!new)>(ps: seq<(W, T)>)
    ensures Counted(ps, Trained(ps))
  {
    if |ps| > 0 {
      var init, last := ps[..|ps| - 1], ps[|ps| - 1];
      assert ps == init + [last];
      TrainedCounts(init);
      CountedSnoc(init, Trained(init), last);
    }
  }

  /**
   * The training loop over the sentences of `train` and their tokens, START
   * tokens included.
   */
  method Count<W(==, !new), T(==, !new)>(train: seq<seq<(W, T)>>) returns (seen: map<W, Counter<T>>, tags: Counter<T>)
    ensures Tables(seen, tags) == Trained(Flatten(train))
  {
    seen, tags := map[], Empty();
    ghost var ps: seq<(W, T)> := [];
    for i := 0 to |train|
      invariant ps == Flatten(train[..i])
      invariant Tables(seen, tags) == Trained(ps)
    {
      for j := 0 to |train[i]|
        invariant ps == Flatten(train[..i]) + train[i][..j]
        invariant Tables(seen, tags) == Trained(ps)
      {
        var word, tag := train[i][j].0, train[i][j].1;
        TrainedSnoc(ps, (word, tag));
        var row := if word in seen then seen[word] else Empty();
        seen := seen[word := Inc(row, tag)];
        tags := Inc(tags, tag);
        StreamSnoc(train, i, j);
        ps := ps + [train[i][j]];
      }
      StreamNext(train, i);
    }
    assert train[..|train|] == train;
  }

  /** The lookup of one test word in the trained tables. */
  method TagWord<W(==, !new), T(==, !new)>(seen: map<W, Counter<T>>, tags: Counter<T>, w: W) returns (t: Result<T>)
    requires RowsNonEmpty(Tables(seen, tags))
    ensures t == Choose(Tables(seen, tags), w)
  {
    if w in seen {
      t := Ok(MostFrequent(seen[w]));
    } else if |tags.keys| == 0 {
      t := Err(ValueError);
    } else {
      t := Ok(MostFrequent(tags));
    }
  }

  /** The test loop's body for one sentence: the list `insert` it builds. */
  method TagSentence<W(==, !new), T(==, !new)>(seen: map<W, Counter<T>>, tags: Counter<T>, sentence: seq<W>)
    returns (r: Result<seq<(W, T)>>)
    requires RowsNonEmpty(Tables(seen, tags))
    ensures r == TagWords(Tables(seen, tags), sentence)
  {
    ghost var m := Tables(seen, tags);
    var insert: seq<(W, T)> := [];
    for j := 0 to |sentence|
      invariant TagWords(m, sentence[..j]) == Ok(insert)
    {
      TagWordsSnoc(m, sentence, j);
      var w := sentence[j];
      var t := TagWord(seen, tags, w);
      if t.Err? {
        TagWordsErr(m, sentence, j + 1);
        return Err(t.error);
      }
      insert := insert + [(w, t.value)];
    }
    assert sentence[..|sentence|] == sentence;
    return Ok(insert);
  }

  /** The baseline tagger: count the training corpus, then tag each test sentence. */
  method Tag<W(==, !new), T(==, !new)>(train: seq<seq<(W, T)>>, test: seq<seq<W>>) returns (r: Result<seq<seq<(W, T)>>>)
    ensures r == Tagging(Trained(Flatten(train)), test)
  {
    var seen, tags := Count(train);
    ghost var m := Tables(seen, tags);
    var sentences: seq<seq<(W, T)>> := [];
    for i := 0 to |test|
      invariant Tagging(m, test[..i]) == Ok(sentences)
    {
      TaggingSnoc(m, test, i);
      var insert := TagSentence(seen, tags, test[i]);
      if insert.Err? {
        TaggingErr(m, test, i + 1);
        return Err(insert.error);
      }
      sentences := sentences + [insert.value];
    }
    assert test[..|test|] == test;
    return Ok(sentences);
  }

  /**
   * A tagged sentence keeps the words of the sentence, in order, each paired
   * with its chosen tag, and fails exactly when some word's choice fails.
   */
  lemma {:induction false} TagWordsShape<W(!new), T(!new)>(m: Tables<W, T>, sentence: seq<W>)
    requires RowsNonEmpty(m)
    ensures TagWords(m, sentence).Ok? <==> forall j :: 0 <= j < |sentence| ==> Choose(m, sentence[j]).Ok?
    ensures TagWords(m, sentence).Err? ==> TagWords(m, sentence).error == ValueError
    ensures TagWords(m, sentence).Ok? ==> |TagWords(m, sentence).value| == |sentence|
    ensures TagWords(m, sentence).Ok? ==> forall j :: 0 <= j < |sentence| ==>
      TagWords(m, sentence).value[j] == (sentence[j], Choose(m, sentence[j]).value)
  {
    if |sentence| > 0 {
      var init := sentence[..|sentence| - 1];
      TagWordsShape(m, init);
      assert forall j :: 0 <= j < |init| ==> init[j] == sentence[j];
    }
  }

  /**
   * The tagged corpus has one tagged sentence per test sentence, and fails
   * exactly when some sentence fails.
   */
  lemma {:induction false} TaggingShape<W(!new), T(!new)>(m: Tables<W, T>, test: seq<seq<W>>)
    requires RowsNonEmpty(m)
    ensures Tagging(m, test).Ok? <==> forall i :: 0 <= i < |test| ==> TagWords(m, test[i]).Ok?
    ensures Tagging(m, test).Err? ==> Tagging(m, test).error == ValueError
    ensures Tagging(m, test).Ok? ==> |Tagging(m, test).value| == |test|
    ensures Tagging(m, test).Ok? ==> forall i :: 0 <= i < |test| ==>
      Tagging(m, test).value[i] == TagWords(m, test[i]).value
  {
    if |test| > 0 {
      var init := test[..|test| - 1];
      TaggingShape(m, init);
      TagWordsShape(m, test[|test| - 1]);
      assert forall i :: 0 <= i < |init| ==> init[i] == test[i];
    }
  }

  /** After training, a word's choice fails exactly when the corpus has no token. */
  lemma ChooseTrainedErr<W(!new), T(!new)>(ps: seq<(W, T)>, w: W)
    ensures Choose(Trained(ps), w).Err? <==> |ps| == 0
    ensures Choose(Trained(ps), w).Err? ==> Choose(Trained(ps), w).error == ValueError
  {
    if |ps| == 0 {
      assert Trained(ps).seen == map[];
    }
  }

  /**
   * The baseline tagger raises ValueError exactly when the training corpus
   * has no token and some test sentence has a word.
   */
  lemma TaggingTrainedErr<W(!new), T(!new)>(ps: seq<(W, T)>, test: seq<seq<W>>)
    ensures Tagging(Trained(ps), test).Err? <==> |ps| == 0 && exists i :: 0 <= i < |test| && |test[i]| > 0
    ensures Tagging(Trained(ps), test).Err? ==> Tagging(Trained(ps), test).error == ValueError
  {
    var m := Trained(ps);
    TaggingShape(m, test);
    forall i | 0 <= i < |test|
      ensures TagWords(m, test[i]).Ok? <==> (|ps| == 0 ==> |test[i]| == 0)
    {
      TagWordsShape(m, test[i]);
      if |test[i]| > 0 {
        ChooseTrainedErr(ps, test[i][0]);
      }
      forall j | 0 <= j < |test[i]| {
        ChooseTrainedErr(ps, test[i][j]);
      }
    }
  }

  /**
   * `max` over a Tally: an element of `xs` occurring most often, and among
   * equally frequent ones the one occurring first.
   */
  lemma MostFrequentOfTally<T(!new)>(xs: seq<T>)
    requires |xs| > 0
    ensures |Tally(xs).keys| > 0
    ensures multiset(xs)[MostFrequent(Tally(xs))] > 0
    ensures forall t :: multiset(xs)[t] <= multiset(xs)[MostFrequent(Tally(xs))]
    ensures forall t :: (t != MostFrequent(Tally(xs)) && t in xs &&
      multiset(xs)[t] == multiset(xs)[MostFrequent(Tally(xs))]) ==>
      FirstIndex(xs, MostFrequent(Tally(xs))) < FirstIndex(xs, t)
  {
    var c := Tally(xs);
    assert xs[0] in c.keys;
    var best := MostFrequent(c);
    TallyCounts(xs);
    TallyValid(xs);
    MostFrequentIsMax(c);
    forall t | t != best && t in xs && multiset(xs)[t] == multiset(xs)[best]
      ensures FirstIndex(xs, best) < FirstIndex(xs, t)
    {
      FirstAmongEqual(xs, t);
    }
  }

  /** Among keys of equal count in a Tally, MostFrequent is the one that occurs first. */
  lemma FirstAmongEqual<T(!new)>(xs: seq<T>, t: T)
    requires |xs| > 0 && t in xs
    requires t != MostFrequent(Tally(xs))
    requires Get(Tally(xs), t) == Get(Tally(xs), MostFrequent(Tally(xs)))
    ensures FirstIndex(xs, MostFrequent(Tally(xs))) < FirstIndex(xs, t)
  {
    var c := Tally(xs);
    var i := ArgMax(c);
    var j := FirstIndex(c.keys, t);
    ArgMaxFirst(c, j);
    assert i != j by {
      assert c.keys[j] == t && c.keys[i] == MostFrequent(c);
    }
    TallyOrderAt(xs, i, j);
  }

  /** A seen word's choice is MostFrequent of the Tally of its tags; an unseen word's, of all tags. */
  lemma ChooseTrained<W(!new), T(!new)>(ps: seq<(W, T)>, w: W)
    requires |ps| > 0
    ensures HasWord(ps, w) ==> |TagsOfWord(ps, w)| > 0
    ensures HasWord(ps, w) ==> Choose(Trained(ps), w) == Ok(MostFrequent(Tally(TagsOfWord(ps, w))))
    ensures !HasWord(ps, w) ==> Choose(Trained(ps), w) == Ok(MostFrequent(Tally(Tags(ps))))
  {
    TrainedCounts(ps);
    TagsOfWordEmpty(ps, w);
  }

  /**
   * A word seen in training gets a tag it was seen with most often; among
   * tags seen equally often with it, the one it was first seen with wins.
   */
  lemma SeenWordTag<W(!new), T(!new)>(ps: seq<(W, T)>, w: W)
    requires HasWord(ps, w)
    ensures Choose(Trained(ps), w).Ok?
    ensures Occurrences(ps, w, Choose(Trained(ps), w).value) > 0
    ensures forall t :: Occurrences(ps, w, t) <= Occurrences(ps, w, Choose(Trained(ps), w).value)
    ensures forall t :: (t != Choose(Trained(ps), w).value && t in TagsOfWord(ps, w) &&
      Occurrences(ps, w, t) == Occurrences(ps, w, Choose(Trained(ps), w).value)) ==>
      Choose(Trained(ps), w).value in TagsOfWord(ps, w) &&
      FirstIndex(TagsOfWord(ps, w), Choose(Trained(ps), w).value) < FirstIndex(TagsOfWord(ps, w), t)
  {
    assert |Words(ps)| > 0;
    var xs := TagsOfWord(ps, w);
    ChooseTrained(ps, w);
    MostFrequentOfTally(xs);
    forall t ensures Occurrences(ps, w, t) == multiset(xs)[t] {
      TagsOfWordCounts(ps, w, t);
    }
  }

  /** A word seen with one tag only always receives that tag. */
  lemma SingleTagWord<W(!new), T(!new)>(ps: seq<(W, T)>, w: W, t: T)
    requires HasWord(ps, w)
    requires forall p :: p in ps && p.0 == w ==> p.1 == t
    ensures Choose(Trained(ps), w) == Ok(t)
  {
    SeenWordTag(ps, w);
    var best := Choose(Trained(ps), w).value;
    assert multiset(ps)[(w, best)] > 0;
    assert (w, best) in ps;
  }

  /**
   * An unseen word gets the tag most frequent over the whole corpus, the first
   * seen among equally frequent ones.
   */
  lemma UnseenWordTag<W(!new), T(!new)>(ps: seq<(W, T)>, w: W)
    requires |ps| > 0 && !HasWord(ps, w)
    ensures Choose(Trained(ps), w).Ok?
    ensures multiset(Tags(ps))[Choose(Trained(ps), w).value] > 0
    ensures forall t :: multiset(Tags(ps))[t] <= multiset(Tags(ps))[Choose(Trained(ps), w).value]
    ensures forall t :: (t != Choose(Trained(ps), w).value && t in Tags(ps) &&
      multiset(Tags(ps))[t] == multiset(Tags(ps))[Choose(Trained(ps), w).value]) ==>
      FirstIndex(Tags(ps), Choose(Trained(ps), w).value) < FirstIndex(Tags(ps), t)
  {
    ChooseTrained(ps, w);
    MostFrequentOfTally(Tags(ps));
  }

  /** A tag strictly more frequent than every other is what every unseen word receives. */
  lemma DominantTagForUnseen<W(!new), T(!new)>(ps: seq<(W, T)>, w: W, top: T)
    requires |ps| > 0 && !HasWord(ps, w)
    requires forall t :: t != top ==> multiset(Tags(ps))[t] < multiset(Tags(ps))[top]
    ensures Choose(Trained(ps), w) == Ok(top)
  {
    UnseenWordTag(ps, w);
  }
}
