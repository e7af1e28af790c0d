/**
 * The shared vocabulary of both taggers: words, tags, tagged sentences,
 * the sentinel strings the source compares against, the Python exceptions
 * the core can raise, and the token-stream views of a training corpus.
 */
module Corpus {

  type Word = string
  type Tag = string
  /** A (word, tag) tuple. */
  type Pair = (Word, Tag)
  type TaggedSentence = seq<Pair>

  /** The sentinel that opens every sentence, as word and as tag. */
  const START: string := "START"
  /** The sentinel that the speech formatter appends. */
  const END: string := "END"

  /** The Python exceptions that the modelled code can raise. */
  datatype Error = IndexError | KeyError | ValueError

  /** A returned value, or the exception the call raises instead. */
  datatype Result<T> = Ok(value: T) | Err(error: Error)

  /** The pair that opens every decoded sentence. */
  function StartPair(): Pair { (START, START) }

  /** A `Counter` read: the stored value, or 0 for a missing key. */
  function Lookup<K>(m: map<K, int>, k: K): (r: int)
    ensures k !in m ==> r == 0
    ensures k in m ==> r == m[k]
  {
    if k in m then m[k] else 0
  }

  /** All tokens of a corpus, sentence after sentence. */
  function Flatten<P>(train: seq<seq<P>>): seq<P>
  {
    if |train| == 0 then [] else Flatten(train[..|train| - 1]) + train[|train| - 1]
  }

  lemma FlattenSnoc<P>(train: seq<seq<P>>, i: nat)
    requires i < |train|
    ensures Flatten(train[..i + 1]) == Flatten(train[..i]) + train[i]
  {
    assert train[..i + 1][..i] == train[..i];
  }

  /** The stream up to token j of sentence i, extended by that token. */
  lemma StreamSnoc<P>(train: seq<seq<P>>, i: nat, j: nat)
    requires i < |train| && j < |train[i]|
    ensures Flatten(train[..i]) + train[i][..j] + [train[i][j]] == Flatten(train[..i]) + train[i][..j + 1]
  {
    assert train[i][..j + 1] == train[i][..j] + [train[i][j]];
  }

  /** The stream after the whole of sentence i. */
  lemma StreamNext<P>(train: seq<seq<P>>, i: nat)
    requires i < |train|
    ensures Flatten(train[..i]) + train[i][..|train[i]|] == Flatten(train[..i + 1])
  {
    FlattenSnoc(train, i);
    assert train[i][..|train[i]|] == train[i];
  }

  /** Every token of every sentence is a token of the flattened corpus. */
  lemma {:induction false} FlattenHas<P>(train: seq<seq<P>>, i: nat, j: nat)
    requires i < |train| && j < |train[i]|
    ensures train[i][j] in Flatten(train)
  {
    if i < |train| - 1 {
      FlattenHas(train[..|train| - 1], i, j);
    }
  }

  /** The tag of every token, in order. */
  function Tags<W, T>(ps: seq<(W, T)>): (ts: seq<T>)
    ensures |ts| == |ps|
  {
    if |ps| == 0 then [] else Tags(ps[..|ps| - 1]) + [ps[|ps| - 1].1]
  }

  lemma TagsSnoc<W, T>(ps: seq<(W, T)>, p: (W, T))
    ensures Tags(ps + [p]) == Tags(ps) + [p.1]
  {
    assert (ps + [p])[..|ps|] == ps;
  }

  lemma {:induction false} TagsAt<W, T>(ps: seq<(W, T)>, i: nat)
    requires i < |ps|
    ensures Tags(ps)[i] == ps[i].1
  {
    if i < |ps| - 1 {
      TagsAt(ps[..|ps| - 1], i);
    }
  }

  /** The tags that a word carries in the token stream, in order. */
  function TagsOfWord<W(==), T>(ps: seq<(W, T)>, w: W): seq<T>
  {
    if |ps| == 0 then []
    else TagsOfWord(ps[..|ps| - 1], w) + (if ps[|ps| - 1].0 == w then [ps[|ps| - 1].1] else [])
  }

  lemma TagsOfWordSnoc<W, T>(ps: seq<(W, T)>, p: (W, T), w: W)
    ensures TagsOfWord(ps + [p], w) == TagsOfWord(ps, w) + (if p.0 == w then [p.1] else [])
  {
    assert (ps + [p])[..|ps|] == ps;
  }

  /** How often the pair (w, t) occurs in the token stream. */
  function Occurrences<W(==), T(==)>(ps: seq<(W, T)>, w: W, t: T): nat
  {
    multiset(ps)[(w, t)]
  }

  /** The word of every token, in order. */
  function Words<W, T>(ps: seq<(W, T)>): (ws: seq<W>)
    ensures |ws| == |ps|
  {
    if |ps| == 0 then [] else Words(ps[..|ps| - 1]) + [ps[|ps| - 1].0]
  }

  /** `w` is a word of the token stream. */
  predicate HasWord<W(==), T>(ps: seq<(W, T)>, w: W)
  {
    w in Words(ps)
  }

  lemma HasWordSnoc<W, T>(ps: seq<(W, T)>, p: (W, T), w: W)
    ensures HasWord(ps + [p], w) <==> HasWord(ps, w) || p.0 == w
  {
    assert (ps + [p])[..|ps|] == ps;
  }

  /** The tags that `w` carries count exactly its (w, t) occurrences. */
  lemma {:induction false} TagsOfWordCounts<W, T>(ps: seq<(W, T)>, w: W, t: T)
    ensures multiset(TagsOfWord(ps, w))[t] == Occurrences(ps, w, t)
  {
    if |ps| > 0 {
      var init, last := ps[..|ps| - 1], ps[|ps| - 1];
      assert ps == init + [last];
      TagsOfWordCounts(init, w, t);
    }
  }

  /** A word carries some tag exactly when it is a word of the stream. */
  lemma {:induction false} TagsOfWordEmpty<W, T>(ps: seq<(W, T)>, w: W)
    ensures |TagsOfWord(ps, w)| > 0 <==> HasWord(ps, w)
  {
    if |ps| > 0 {
      var init, last := ps[..|ps| - 1], ps[|ps| - 1];
      assert ps == init + [last];
      TagsOfWordEmpty(init, w);
      assert Words(ps) == Words(init) + [last.0];
    }
  }

  /** Every tag of a word's tag list comes from a pair of the stream. */
  lemma {:induction false} TagsOfWordFrom<W, T>(ps: seq<(W, T)>, w: W, t: T)
    requires t in TagsOfWord(ps, w)
    ensures (w, t) in ps
  {
    var init, last := ps[..|ps| - 1], ps[|ps| - 1];
    assert ps == init + [last];
    if t in TagsOfWord(init, w) {
      TagsOfWordFrom(init, w, t);
    }
  }
}
