/**
 * The training stage of the Viterbi tagger: the integer count tables it
 * builds before smoothing them into log scores. Tags are counted without
 * the `start` tag, initial counts come from the second token of every
 * sentence, transitions from consecutive tags, emissions from every token.
 * Words and tags are type parameters W and T; the three sentinel strings
 * the source compares against ("START", "EMPTY", "UNKNOWN") are passed in
 * as `start`, `empty` and `unknown`.
 */
module Trainer {
  import opened Corpus
  import opened Counters

  // ---------------------------------------------------------------------
  // Tag counts

  /** The tags `ts` with every `start` dropped. */
  function NonStart<T(==)>(ts: seq<T>, start: T): seq<T>
  {
    if |ts| == 0 then []
    else NonStart(ts[..|ts| - 1], start) + (if ts[|ts| - 1] == start then [] else [ts[|ts| - 1]])
  }

  lemma NonStartSnoc<T>(ts: seq<T>, t: T, start: T)
    ensures NonStart(ts + [t], start) == NonStart(ts, start) + (if t == start then [] else [t])
  {
    assert (ts + [t])[..|ts|] == ts;
  }

  lemma {:induction false} NonStartCounts<T>(ts: seq<T>, start: T)
    ensures forall t :: multiset(NonStart(ts, start))[t] == if t == start then 0 else multiset(ts)[t]
  {
    if |ts| > 0 {
      var init, last := ts[..|ts| - 1], ts[|ts| - 1];
      assert ts == init + [last];
      NonStartCounts(init, start);
      assert multiset(ts) == multiset(init) + multiset{last};
    }
  }

  /** The Counter `tags` after the training loop over the token stream `ps`. */
  function TagCounts<W, T(==, !new)>(ps: seq<(W, T)>, start: T): Counter<T>
  {
    Tally(NonStart(Tags(ps), start))
  }

  /**
   * `tags[t]` is the number of tokens tagged `t`, except that `start` is
   * never counted and never becomes a key; the keys are exactly the other
   * tags of the stream.
   */
  lemma TagCountsSpec<W, T(!new)>(ps: seq<(W, T)>, start: T)
    ensures Valid(TagCounts(ps, start))
    ensures forall t :: Get(TagCounts(ps, start), t) == if t == start then 0 else multiset(Tags(ps))[t]
    ensures start !in TagCounts(ps, start).keys
    ensures forall t :: t in TagCounts(ps, start).keys <==> t != start && t in Tags(ps)
  {
    TallyValid(NonStart(Tags(ps), start));
    TallyCounts(NonStart(Tags(ps), start));
    NonStartCounts(Tags(ps), start);
    forall t
      ensures t in TagCounts(ps, start).keys <==> t != start && t in Tags(ps)
    {
      assert t in NonStart(Tags(ps), start) <==> multiset(NonStart(Tags(ps), start))[t] > 0;
      assert t in Tags(ps) <==> multiset(Tags(ps))[t] > 0;
    }
  }

  /** The first training loop (its `tags` Counter; `seen` and `num_pairs` are never read). */
  method CountTags<W, T(==, !new)>(train: seq<seq<(W, T)>>, start: T) returns (tags: Counter<T>)
    ensures tags == TagCounts(Flatten(train), start)
  {
    tags := Empty();
    ghost var ps: seq<(W, T)> := [];
    ghost var counted: seq<T> := [];
    for i := 0 to |train|
      invariant ps == Flatten(train[..i])
      invariant counted == NonStart(Tags(ps), start)
      invariant tags == Tally(counted)
    {
      for j := 0 to |train[i]|
        invariant ps == Flatten(train[..i]) + train[i][..j]
        invariant counted == NonStart(Tags(ps), start)
        invariant tags == Tally(counted)
      {
        var tag := train[i][j].1;
        TagsSnoc(ps, train[i][j]);
        NonStartSnoc(Tags(ps), tag, start);
        if tag != start {
          TallySnoc(counted, tag);
          tags := Inc(tags, tag);
          counted := counted + [tag];
        }
        StreamSnoc(train, i, j);
        ps := ps + [train[i][j]];
      }
      StreamNext(train, i);
    }
    assert train[..|train|] == train;
  }

  // ---------------------------------------------------------------------
  // Dictionaries of counts

  /** The dictionary `row` after `row[k] = 0` for each `k` of `keys` in turn. */
  function ZeroFill<K(==, !new)>(row: map<K, nat>, keys: seq<K>): map<K, nat>
  {
    if |keys| == 0 then row else ZeroFill(row, keys[..|keys| - 1])[keys[|keys| - 1] := 0]
  }

  lemma ZeroFillSnoc<K(!new)>(row: map<K, nat>, keys: seq<K>, k: K)
    ensures ZeroFill(row, keys + [k]) == ZeroFill(row, keys)[k := 0]
  {
    assert (keys + [k])[..|keys|] == keys;
  }

  /** Zeroing adds exactly the listed keys and reads 0 there, the old value elsewhere. */
  lemma {:induction false} ZeroFillSpec<K(!new)>(row: map<K, nat>, keys: seq<K>)
    ensures forall k :: k in ZeroFill(row, keys) <==> k in row || k in keys
    ensures forall k :: Lookup(ZeroFill(row, keys), k) == if k in keys then 0 else Lookup(row, k)
  {
    if |keys| > 0 {
      var init, last := keys[..|keys| - 1], keys[|keys| - 1];
      assert keys == init + [last];
      ZeroFillSpec(row, init);
    }
  }

  /** `sum(d.values())` for a dictionary whose keys, in order, are `keys`. */
  function SumOver<K(==, !new)>(keys: seq<K>, d: map<K, nat>): int
  {
    if |keys| == 0 then 0 else SumOver(keys[..|keys| - 1], d) + Lookup(d, keys[|keys| - 1])
  }

  lemma {:induction false} SumOverFrame<K(!new)>(keys: seq<K>, d: map<K, nat>, k: K, v: nat)
    requires k !in keys
    ensures SumOver(keys, d[k := v]) == SumOver(keys, d)
  {
    if |keys| > 0 {
      SumOverFrame(keys[..|keys| - 1], d, k, v);
    }
  }

  /** Raising one listed key by one raises the sum of distinct keys by one. */
  lemma {:induction false} SumOverBump<K(!new)>(keys: seq<K>, d: map<K, nat>, k: K)
    requires forall i, j :: 0 <= i < j < |keys| ==> keys[i] != keys[j]
    requires k in keys && k in d
    ensures SumOver(keys, d[k := d[k] + 1]) == SumOver(keys, d) + 1
  {
    var init, last := keys[..|keys| - 1], keys[|keys| - 1];
    assert keys == init + [last];
    if last == k {
      assert k !in init;
      SumOverFrame(init, d, k, d[k] + 1);
    } else {
      SumOverBump(init, d, k);
    }
  }

  // ---------------------------------------------------------------------
  // Initial counts

  /** Training sentence `s` has a second token (`s[1]` does not raise). */
  predicate HasSecond<W, T>(s: seq<(W, T)>)
  {
    |s| >= 2
  }

  /**
   * `initial_prob` after the initial-count loop: one zero per key of `tags`,
   * then `initial_prob[train[i][1][1]] += 1` for each sentence. A sentence
   * without a second token raises IndexError; a second tag that is not a
   * key raises KeyError.
   */
  function Initial<W, T(==, !new)>(train: seq<seq<(W, T)>>, keys: seq<T>): Result<map<T, nat>>
  {
    if |train| == 0 then Ok(ZeroFill(map[], keys))
    else
      var prev, s := Initial(train[..|train| - 1], keys), train[|train| - 1];
      if prev.Err? then prev
      else if !HasSecond(s) then Err(IndexError)
      else if s[1].1 !in prev.value then Err(KeyError)
      else Ok(prev.value[s[1].1 := prev.value[s[1].1] + 1])
  }

  lemma InitialSnoc<W, T(!new)>(train: seq<seq<(W, T)>>, keys: seq<T>, i: nat)
    requires i < |train|
    ensures Initial(train[..i + 1], keys) ==
      if Initial(train[..i], keys).Err? then Initial(train[..i], keys)
      else if !HasSecond(train[i]) then Err(IndexError)
      else if train[i][1].1 !in Initial(train[..i], keys).value then Err(KeyError)
      else Ok(Initial(train[..i], keys).value[train[i][1].1 := Initial(train[..i], keys).value[train[i][1].1] + 1])
  {
    assert train[..i + 1][..i] == train[..i];
  }

  /** Once a prefix of the corpus fails, the whole corpus fails the same way. */
  lemma {:induction false} InitialErr<W, T(!new)>(train: seq<seq<(W, T)>>, keys: seq<T>, i: nat)
    requires i <= |train|
    requires Initial(train[..i], keys).Err?
    ensures Initial(train, keys) == Initial(train[..i], keys)
  {
    if i < |train| {
      var init := train[..|train| - 1];
      assert init[..i] == train[..i];
      InitialErr(init, keys, i);
    } else {
      assert train[..i] == train;
    }
  }

  /** The initial-count loop. */
  method CountInitial<W, T(==, !new)>(train: seq<seq<(W, T)>>, tags: Counter<T>) returns (r: Result<map<T, nat>>)
    ensures r == Initial(train, tags.keys)
  {
    var initial := ZeroRow(map[], tags.keys);
    for i := 0 to |train|
      invariant Initial(train[..i], tags.keys) == Ok(initial)
    {
      InitialSnoc(train, tags.keys, i);
      if |train[i]| < 2 {
        InitialErr(train, tags.keys, i + 1);
        return Err(IndexError);
      }
      var t := train[i][1].1;
      if t !in initial {
        InitialErr(train, tags.keys, i + 1);
        return Err(KeyError);
      }
      initial := initial[t := initial[t] + 1];
    }
    assert train[..|train|] == train;
    r := Ok(initial);
  }

  /** The second tag of every sentence, for a corpus where each has one. */
  function SecondTags<W, T>(train: seq<seq<(W, T)>>): (ts: seq<T>)
    requires forall i :: 0 <= i < |train| ==> HasSecond(train[i])
    ensures |ts| == |train|
  {
    if |train| == 0 then []
    else
      assert HasSecond(train[|train| - 1]);
      SecondTags(train[..|train| - 1]) + [train[|train| - 1][1].1]
  }

  /** Sentence `i` passes the loop body: it has a second token whose tag is a key. */
  predicate Admitted<W, T(==)>(s: seq<(W, T)>, keys: seq<T>)
  {
    HasSecond(s) && s[1].1 in keys
  }

  /**
   * The loop succeeds exactly on a corpus whose every sentence is admitted,
   * and then holds, under exactly the keys of `tags`, how many sentences
   * have each tag second.
   */
  lemma {:induction false} InitialCounts<W, T(!new)>(train: seq<seq<(W, T)>>, keys: seq<T>)
    ensures Initial(train, keys).Ok? <==> forall i :: 0 <= i < |train| ==> Admitted(train[i], keys)
    ensures Initial(train, keys).Ok? ==>
      && (forall t :: t in Initial(train, keys).value <==> t in keys)
      && (forall t :: t in keys ==> Initial(train, keys).value[t] == multiset(SecondTags(train))[t])
  {
    if |train| == 0 {
      ZeroFillSpec(map[], keys);
    } else {
      var init, s := train[..|train| - 1], train[|train| - 1];
      InitialCounts(init, keys);
      assert forall i :: 0 <= i < |init| ==> init[i] == train[i];
      if Initial(train, keys).Ok? {
        assert SecondTags(train) == SecondTags(init) + [s[1].1];
        assert multiset(SecondTags(train)) == multiset(SecondTags(init)) + multiset{s[1].1};
      }
    }
  }

  /** The first sentence that is not admitted decides which exception the loop raises. */
  lemma {:induction false} InitialFirstError<W, T(!new)>(train: seq<seq<(W, T)>>, keys: seq<T>, i: nat)
    requires i < |train| && !Admitted(train[i], keys)
    requires forall i' :: 0 <= i' < i ==> Admitted(train[i'], keys)
    ensures Initial(train, keys) == Err(if HasSecond(train[i]) then KeyError else IndexError)
  {
    InitialCounts(train[..i], keys);
    assert forall i' :: 0 <= i' < i ==> train[..i][i'] == train[i'];
    InitialSnoc(train, keys, i);
    InitialErr(train, keys, i + 1);
  }

  /** With distinct keys, the total `sum(initial_prob.values())` is the number of sentences. */
  lemma {:induction false} InitialSum<W, T(!new)>(train: seq<seq<(W, T)>>, keys: seq<T>)
    requires forall i, j :: 0 <= i < j < |keys| ==> keys[i] != keys[j]
    requires Initial(train, keys).Ok?
    ensures SumOver(keys, Initial(train, keys).value) == |train|
  {
    if |train| == 0 {
      ZeroFillSpec(map[], keys);
      SumOverZero(keys, ZeroFill(map[], keys));
    } else {
      var init, s := train[..|train| - 1], train[|train| - 1];
      InitialSum(init, keys);
      InitialCounts(init, keys);
      SumOverBump(keys, Initial(init, keys).value, s[1].1);
    }
  }

  lemma {:induction false} SumOverZero<K(!new)>(keys: seq<K>, d: map<K, nat>)
    requires forall k :: k in keys ==> Lookup(d, k) == 0
    ensures SumOver(keys, d) == 0
  {
    if |keys| > 0 {
      SumOverZero(keys[..|keys| - 1], d);
    }
  }

  /**
   * For the tags counted from the same corpus, a sentence is admitted
   * exactly when it has a second token and that token is not tagged
   * `start`.
   */
  lemma AdmittedByTags<W, T(!new)>(train: seq<seq<(W, T)>>, start: T, i: nat)
    requires i < |train|
    ensures Admitted(train[i], TagCounts(Flatten(train), start).keys) <==> HasSecond(train[i]) && train[i][1].1 != start
  {
    TagCountsSpec(Flatten(train), start);
    if HasSecond(train[i]) {
      FlattenHas(train, i, 1);
      TagsHas(Flatten(train), train[i][1]);
    }
  }

  lemma {:induction false} TagsHas<W, T>(ps: seq<(W, T)>, p: (W, T))
    requires p in ps
    ensures p.1 in Tags(ps)
  {
    var init := ps[..|ps| - 1];
    assert ps == init + [ps[|ps| - 1]];
    if p in init {
      TagsHas(init, p);
    }
  }

  // ---------------------------------------------------------------------
  // Tables of rows: a `defaultdict` of Counters

  /** `d[r]`: a missing row reads as an empty Counter. */
  function RowOf<R(==), C>(d: map<R, map<C, nat>>, r: R): map<C, nat>
  {
    if r in d then d[r] else map[]
  }

  /** `d[r][c]`: 0 for a missing row or a missing column. */
  function Cell<R(==), C(==)>(d: map<R, map<C, nat>>, r: R, c: C): nat
  {
    if c in RowOf(d, r) then RowOf(d, r)[c] else 0
  }

  /** The nested loop `for r in rows: for c in cols: d[r][c] = 0`. */
  function Fill<R(==, !new), C(==, !new)>(d: map<R, map<C, nat>>, rows: seq<R>, cols: seq<C>): map<R, map<C, nat>>
  {
    if |rows| == 0 then d
    else
      var d', r := Fill(d, rows[..|rows| - 1], cols), rows[|rows| - 1];
      d'[r := ZeroFill(RowOf(d', r), cols)]
  }

  lemma FillSnoc<R(!new), C(!new)>(d: map<R, map<C, nat>>, rows: seq<R>, cols: seq<C>, r: R)
    ensures Fill(d, rows + [r], cols) == Fill(d, rows, cols)[r := ZeroFill(RowOf(Fill(d, rows, cols), r), cols)]
  {
    assert (rows + [r])[..|rows|] == rows;
  }

  /** Filling adds exactly the listed rows and columns, and they read 0. */
  lemma {:induction false} FillRowAt<R(!new), C(!new)>(d: map<R, map<C, nat>>, rows: seq<R>, cols: seq<C>, r: R)
    ensures r in Fill(d, rows, cols) <==> r in d || r in rows
  {
    if |rows| > 0 {
      var init, last := rows[..|rows| - 1], rows[|rows| - 1];
      assert rows == init + [last];
      assert r in rows <==> r in init || r == last;
      FillRowAt(d, init, cols, r);
    }
  }

  lemma {:induction false} FillAt<R(!new), C(!new)>(d: map<R, map<C, nat>>, rows: seq<R>, cols: seq<C>, r: R, c: C)
    ensures c in RowOf(Fill(d, rows, cols), r) <==> c in RowOf(d, r) || (r in rows && c in cols)
    ensures Cell(Fill(d, rows, cols), r, c) == if r in rows && c in cols then 0 else Cell(d, r, c)
  {
    if |rows| > 0 {
      var init, last := rows[..|rows| - 1], rows[|rows| - 1];
      assert rows == init + [last];
      assert r in rows <==> r in init || r == last;
      FillAt(d, init, cols, r, c);
      var d' := Fill(d, init, cols);
      ZeroFillSpec(RowOf(d', last), cols);
    }
  }

  /** The loop `for k in keys: row[k] = 0`. */
  method ZeroRow<K(==, !new)>(row: map<K, nat>, keys: seq<K>) returns (r: map<K, nat>)
    ensures r == ZeroFill(row, keys)
  {
    r := row;
    for b := 0 to |keys|
      invariant r == ZeroFill(row, keys[..b])
    {
      ZeroFillSnoc(row, keys[..b], keys[b]);
      assert keys[..b + 1] == keys[..b] + [keys[b]];
      r := r[keys[b] := 0];
    }
    assert keys[..|keys|] == keys;
  }

  /** The nested loop `for r in rows: for c in cols: d[r][c] = 0`. */
  method FillRows<R(==, !new), C(==, !new)>(d: map<R, map<C, nat>>, rows: seq<R>, cols: seq<C>) returns (e: map<R, map<C, nat>>)
    ensures e == Fill(d, rows, cols)
  {
    e := d;
    for a := 0 to |rows|
      invariant e == Fill(d, rows[..a], cols)
    {
      var row := ZeroRow(RowOf(e, rows[a]), cols);
      FillSnoc(d, rows[..a], cols, rows[a]);
      assert rows[..a + 1] == rows[..a] + [rows[a]];
      e := e[rows[a] := row];
    }
    assert rows[..|rows|] == rows;
  }

  /** `d[r][c] += 1`. */
  function Bump<R(==), C(==)>(d: map<R, map<C, nat>>, r: R, c: C): map<R, map<C, nat>>
  {
    d[r := RowOf(d, r)[c := Cell(d, r, c) + 1]]
  }

  /** `d[r][c] += 1` for each pair `(r, c)` of `pairs` in turn. */
  function BumpAll<R(==), C(==)>(d: map<R, map<C, nat>>, pairs: seq<(R, C)>): map<R, map<C, nat>>
  {
    if |pairs| == 0 then d
    else
      var p := pairs[|pairs| - 1];
      Bump(BumpAll(d, pairs[..|pairs| - 1]), p.0, p.1)
  }

  lemma BumpAllSnoc<R, C>(d: map<R, map<C, nat>>, pairs: seq<(R, C)>, p: (R, C))
    ensures BumpAll(d, pairs + [p]) == Bump(BumpAll(d, pairs), p.0, p.1)
  {
    assert (pairs + [p])[..|pairs|] == pairs;
  }

  /** Every cell grows by the number of times its pair was counted; no row or column is lost. */
  lemma {:induction false} BumpAllSpec<R(!new), C(!new)>(d: map<R, map<C, nat>>, pairs: seq<(R, C)>)
    ensures forall r, c :: Cell(BumpAll(d, pairs), r, c) == Cell(d, r, c) + multiset(pairs)[(r, c)]
    ensures forall r :: r in d ==> r in BumpAll(d, pairs)
    ensures forall r, c :: c in RowOf(d, r) ==> c in RowOf(BumpAll(d, pairs), r)
  {
    if |pairs| > 0 {
      var init, last := pairs[..|pairs| - 1], pairs[|pairs| - 1];
      assert pairs == init + [last];
      BumpAllSpec(d, init);
      assert multiset(pairs) == multiset(init) + multiset{last};
    }
  }

  // ---------------------------------------------------------------------
  // Transition counts

  /**
   * The inner transition loop over one sentence: `prev` starts as `empty`;
   * a token whose `prev` is `empty` only sets `prev`, every other token
   * counts the pair (prev, tag). The result is the final `prev` and the
   * pairs counted, in order.
   */
  function PairsFold<W, T(==)>(s: seq<(W, T)>, empty: T): (T, seq<(T, T)>)
  {
    if |s| == 0 then (empty, [])
    else
      var prev, tag := PairsFold(s[..|s| - 1], empty), s[|s| - 1].1;
      if prev.0 == empty then (tag, prev.1) else (tag, prev.1 + [(prev.0, tag)])
  }

  lemma PairsFoldSnoc<W, T>(s: seq<(W, T)>, j: nat, empty: T)
    requires j < |s|
    ensures PairsFold(s[..j + 1], empty) ==
      if PairsFold(s[..j], empty).0 == empty then (s[j].1, PairsFold(s[..j], empty).1)
      else (s[j].1, PairsFold(s[..j], empty).1 + [(PairsFold(s[..j], empty).0, s[j].1)])
  {
    assert s[..j + 1][..j] == s[..j];
  }

  /** The tag pairs one training sentence contributes. */
  function SentencePairs<W, T(==)>(s: seq<(W, T)>, empty: T): seq<(T, T)>
  {
    PairsFold(s, empty).1
  }

  /** The tag pairs of the whole corpus, sentence after sentence. */
  function AllPairs<W, T(==)>(train: seq<seq<(W, T)>>, empty: T): seq<(T, T)>
  {
    if |train| == 0 then [] else AllPairs(train[..|train| - 1], empty) + SentencePairs(train[|train| - 1], empty)
  }

  lemma AllPairsSnoc<W, T>(train: seq<seq<(W, T)>>, i: nat, empty: T)
    requires i < |train|
    ensures AllPairs(train[..i + 1], empty) == AllPairs(train[..i], empty) + SentencePairs(train[i], empty)
  {
    assert train[..i + 1][..i] == train[..i];
  }

  /** `transition_prob` after the dense zero fill over `keys` and the transition loop. */
  function Transitions<W, T(==, !new)>(train: seq<seq<(W, T)>>, keys: seq<T>, empty: T): map<T, map<T, nat>>
  {
    BumpAll(Fill(map[], keys, keys), AllPairs(train, empty))
  }

  /**
   * A sentence in which no tag before the last one is `empty` contributes
   * one pair per consecutive pair of its tags, the first being the pair
   * (start tag, first word's tag): m-1 pairs for m tokens.
   */
  lemma {:induction false} SentencePairsConsecutive<W, T>(s: seq<(W, T)>, empty: T)
    requires forall i :: 0 <= i < |s| - 1 ==> s[i].1 != empty
    ensures |s| > 0 ==> PairsFold(s, empty).0 == s[|s| - 1].1
    ensures |SentencePairs(s, empty)| == if |s| == 0 then 0 else |s| - 1
    ensures forall i :: 0 <= i < |s| - 1 ==> SentencePairs(s, empty)[i] == (s[i].1, s[i + 1].1)
  {
    if |s| > 0 {
      var init := s[..|s| - 1];
      SentencePairsConsecutive(init, empty);
      assert forall i :: 0 <= i < |init| ==> init[i] == s[i];
    }
  }

  /** The number of pairs a corpus yields when no sentence repeats the sentinel: m-1 per sentence of m tokens. */
  function Steps<W, T>(train: seq<seq<(W, T)>>): nat
  {
    if |train| == 0 then 0
    else Steps(train[..|train| - 1]) + (if |train[|train| - 1]| == 0 then 0 else |train[|train| - 1]| - 1)
  }

  lemma {:induction false} AllPairsCount<W, T>(train: seq<seq<(W, T)>>, empty: T)
    requires forall i, j :: 0 <= i < |train| && 0 <= j < |train[i]| - 1 ==> train[i][j].1 != empty
    ensures |AllPairs(train, empty)| == Steps(train)
  {
    if |train| > 0 {
      var init := train[..|train| - 1];
      assert forall i :: 0 <= i < |init| ==> init[i] == train[i];
      AllPairsCount(init, empty);
      SentencePairsConsecutive(train[|train| - 1], empty);
    }
  }

  /**
   * Every (a, b) cell of `transition_prob` counts how often the loop met
   * the pair (a, b); every pair of keys has a cell.
   */
  lemma TransitionsSpec<W, T(!new)>(train: seq<seq<(W, T)>>, keys: seq<T>, empty: T)
    ensures forall a, b :: Cell(Transitions(train, keys, empty), a, b) == multiset(AllPairs(train, empty))[(a, b)]
    ensures forall a, b :: a in keys && b in keys ==> a in Transitions(train, keys, empty) && b in Transitions(train, keys, empty)[a]
  {
    var none: map<T, map<T, nat>> := map[];
    BumpAllSpec(Fill(none, keys, keys), AllPairs(train, empty));
    forall a, b
      ensures Cell(Transitions(train, keys, empty), a, b) == multiset(AllPairs(train, empty))[(a, b)]
    {
      FillAt(none, keys, keys, a, b);
    }
    forall a, b | a in keys && b in keys
      ensures a in Transitions(train, keys, empty) && b in Transitions(train, keys, empty)[a]
    {
      FillRowAt(none, keys, keys, a);
      FillAt(none, keys, keys, a, b);
    }
  }

  /** The transition loops; `total` is the number of increments. */
  method CountTransitions<W, T(==, !new)>(train: seq<seq<(W, T)>>, tags: Counter<T>, empty: T)
    returns (trans: map<T, map<T, nat>>, total: nat)
    ensures trans == Transitions(train, tags.keys, empty)
    ensures total == |AllPairs(train, empty)|
  {
    var keys := tags.keys;
    trans := FillRows(map[], keys, keys);
    ghost var zero := trans;
    total := 0;
    ghost var done: seq<(T, T)> := [];
    for i := 0 to |train|
      invariant done == AllPairs(train[..i], empty)
      invariant trans == BumpAll(zero, done)
      invariant total == |done|
    {
      var prev := empty;
      ghost var cur: seq<(T, T)> := [];
      assert done + cur == done;
      for j := 0 to |train[i]|
        invariant (prev, cur) == PairsFold(train[i][..j], empty)
        invariant trans == BumpAll(zero, done + cur)
        invariant total == |done + cur|
      {
        var tag := train[i][j].1;
        PairsFoldSnoc(train[i], j, empty);
        if prev == empty {
          prev := tag;
        } else {
          BumpAllSnoc(zero, done + cur, (prev, tag));
          assert done + cur + [(prev, tag)] == done + (cur + [(prev, tag)]);
          trans := Bump(trans, prev, tag);
          cur := cur + [(prev, tag)];
          prev := tag;
          total := total + 1;
        }
      }
      assert train[i][..|train[i]|] == train[i];
      AllPairsSnoc(train, i, empty);
      done := done + cur;
    }
    assert train[..|train|] == train;
  }

  // ---------------------------------------------------------------------
  // Emission counts

  /**
   * The innermost emission loop: for each row `t` of `rows`, `d[t][w] = 0`
   * when `w` is not yet a column of `d[t]`.
   */
  function AddWord<R(==, !new), C(==, !new)>(d: map<R, map<C, nat>>, rows: seq<R>, w: C): map<R, map<C, nat>>
  {
    if |rows| == 0 then d
    else
      var d', r := AddWord(d, rows[..|rows| - 1], w), rows[|rows| - 1];
      if w in RowOf(d', r) then d' else d'[r := RowOf(d', r)[w := 0]]
  }

  lemma AddWordSnoc<R(!new), C(!new)>(d: map<R, map<C, nat>>, rows: seq<R>, r: R, w: C)
    ensures AddWord(d, rows + [r], w) ==
      if w in RowOf(AddWord(d, rows, w), r) then AddWord(d, rows, w)
      else AddWord(d, rows, w)[r := RowOf(AddWord(d, rows, w), r)[w := 0]]
  {
    assert (rows + [r])[..|rows|] == rows;
  }

  /** Adding a word gives every listed row that column and changes no count. */
  lemma {:induction false} AddWordSpec<R(!new), C(!new)>(d: map<R, map<C, nat>>, rows: seq<R>, w: C)
    ensures forall r :: r in AddWord(d, rows, w) <==> r in d || r in rows
    ensures forall r, c :: c in RowOf(AddWord(d, rows, w), r) <==> c in RowOf(d, r) || (r in rows && c == w)
    ensures forall r, c :: Cell(AddWord(d, rows, w), r, c) == Cell(d, r, c)
  {
    if |rows| > 0 {
      var init, last := rows[..|rows| - 1], rows[|rows| - 1];
      assert rows == init + [last];
      assert forall r :: r in rows <==> r in init || r == last;
      AddWordSpec(d, init, w);
      var d' := AddWord(d, init, w);
      forall r, c
        ensures c in RowOf(AddWord(d, rows, w), r) <==> c in RowOf(d', r) || (r == last && c == w)
      {
        AddWordSnoc(d, init, last, w);
      }
    }
  }

  /** One token of the emission loop: add its word to every row, then `d[tag][word] += 1`. */
  function EmitStep<W(==, !new), T(==, !new)>(d: map<T, map<W, nat>>, rows: seq<T>, p: (W, T)): map<T, map<W, nat>>
  {
    Bump(AddWord(d, rows, p.0), p.1, p.0)
  }

  /** The emission loop over the token stream `ps`. */
  function EmitFold<W(==, !new), T(==, !new)>(d: map<T, map<W, nat>>, rows: seq<T>, ps: seq<(W, T)>): map<T, map<W, nat>>
  {
    if |ps| == 0 then d else EmitStep(EmitFold(d, rows, ps[..|ps| - 1]), rows, ps[|ps| - 1])
  }

  lemma EmitFoldSnoc<W(!new), T(!new)>(d: map<T, map<W, nat>>, rows: seq<T>, ps: seq<(W, T)>, p: (W, T))
    ensures EmitFold(d, rows, ps + [p]) == EmitStep(EmitFold(d, rows, ps), rows, p)
  {
    assert (ps + [p])[..|ps|] == ps;
  }

  /** `emission_prob` after the `"UNKNOWN"` fill over `keys` and the emission loop. */
  function Emissions<W(==, !new), T(==, !new)>(ps: seq<(W, T)>, keys: seq<T>, unknown: W): map<T, map<W, nat>>
  {
    EmitFold(Fill(map[], keys, [unknown]), keys, ps)
  }

  lemma {:induction false} EmitFoldSpec<W(!new), T(!new)>(d: map<T, map<W, nat>>, rows: seq<T>, ps: seq<(W, T)>)
    ensures forall t, w :: Cell(EmitFold(d, rows, ps), t, w) == Cell(d, t, w) + Occurrences(ps, w, t)
    ensures forall t :: t in d ==> t in EmitFold(d, rows, ps)
  {
    if |ps| > 0 {
      var init, last := ps[..|ps| - 1], ps[|ps| - 1];
      assert ps == init + [last];
      EmitFoldSpec(d, rows, init);
      AddWordSpec(EmitFold(d, rows, init), rows, last.0);
      assert multiset(ps) == multiset(init) + multiset{last};
    }
  }

  lemma {:induction false} EmitFoldRows<W(!new), T(!new)>(d: map<T, map<W, nat>>, rows: seq<T>, ps: seq<(W, T)>, t: T, w: W)
    requires t in rows
    ensures w in RowOf(EmitFold(d, rows, ps), t) <==> w in RowOf(d, t) || HasWord(ps, w)
  {
    if |ps| > 0 {
      var init, last := ps[..|ps| - 1], ps[|ps| - 1];
      assert ps == init + [last];
      EmitFoldRows(d, rows, init, t, w);
      var e := EmitFold(d, rows, init);
      AddWordSpec(e, rows, last.0);
      var a := AddWord(e, rows, last.0);
      BumpRow(a, last.1, last.0);
      HasWordSnoc(init, last, w);
      assert w in RowOf(a, t) <==> w in RowOf(e, t) || w == last.0;
    } else {
      assert |Words(ps)| == 0;
    }
  }

  /**
   * After the emission loop every cell `emission_prob[t][w]` counts the
   * (w, t) tokens of the stream, rows included that are not keys; every
   * key of `tags` has a row whose columns are exactly `unknown` and the
   * words of the stream; and `unknown` reads 0 unless it is itself a word
   * of the stream.
   */
  lemma EmissionsSpec<W(!new), T(!new)>(ps: seq<(W, T)>, keys: seq<T>, unknown: W)
    ensures forall t, w :: Cell(Emissions(ps, keys, unknown), t, w) == Occurrences(ps, w, t)
    ensures forall t :: t in keys ==> t in Emissions(ps, keys, unknown)
    ensures forall t, w :: t in keys ==> (w in Emissions(ps, keys, unknown)[t] <==> w == unknown || HasWord(ps, w))
    ensures !HasWord(ps, unknown) ==> forall t :: Cell(Emissions(ps, keys, unknown), t, unknown) == 0
  {
    var none: map<T, map<W, nat>> := map[];
    var z := Fill(none, keys, [unknown]);
    EmitFoldSpec(z, keys, ps);
    forall t, w
      ensures Cell(Emissions(ps, keys, unknown), t, w) == Occurrences(ps, w, t)
    {
      FillAt(none, keys, [unknown], t, w);
    }
    forall t | t in keys
      ensures t in Emissions(ps, keys, unknown)
    {
      FillRowAt(none, keys, [unknown], t);
    }
    forall t
      ensures Occurrences(ps, unknown, t) > 0 ==> HasWord(ps, unknown)
    {
      OccurrencesHasWord(ps, unknown, t);
    }
    forall t, w | t in keys
      ensures w in Emissions(ps, keys, unknown)[t] <==> w == unknown || HasWord(ps, w)
    {
      FillRowAt(none, keys, [unknown], t);
      FillAt(none, keys, [unknown], t, w);
      EmitFoldRows(z, keys, ps, t, w);
      assert RowOf(Emissions(ps, keys, unknown), t) == Emissions(ps, keys, unknown)[t];
      assert w in [unknown] <==> w == unknown;
      assert |RowOf(none, t)| == 0;
    }
  }

  /** `d[r][c] += 1` adds column `c` to row `r` and touches no other row. */
  lemma BumpRow<R, C>(d: map<R, map<C, nat>>, r: R, c: C)
    ensures forall t, x :: x in RowOf(Bump(d, r, c), t) <==> x in RowOf(d, t) || (t == r && x == c)
  {
  }

  /** A word that occurs with some tag is a word of the stream. */
  lemma {:induction false} OccurrencesHasWord<W, T>(ps: seq<(W, T)>, w: W, t: T)
    ensures Occurrences(ps, w, t) > 0 ==> HasWord(ps, w)
  {
    if |ps| > 0 {
      var init, last := ps[..|ps| - 1], ps[|ps| - 1];
      assert ps == init + [last];
      assert multiset(ps) == multiset(init) + multiset{last};
      HasWordSnoc(init, last, w);
      OccurrencesHasWord(init, w, t);
    }
  }

  /** The innermost emission loop, `for t in tags: ...`. */
  method AddWordToRows<W(==, !new), T(==, !new)>(d: map<T, map<W, nat>>, rows: seq<T>, w: W) returns (e: map<T, map<W, nat>>)
    ensures e == AddWord(d, rows, w)
  {
    e := d;
    for b := 0 to |rows|
      invariant e == AddWord(d, rows[..b], w)
    {
      AddWordSnoc(d, rows[..b], rows[b], w);
      assert rows[..b + 1] == rows[..b] + [rows[b]];
      if w !in RowOf(e, rows[b]) {
        e := e[rows[b] := RowOf(e, rows[b])[w := 0]];
      }
    }
    assert rows[..|rows|] == rows;
  }

  /** The emission loops; `total` is the number of tokens read. */
  method CountEmissions<W(==, !new), T(==, !new)>(train: seq<seq<(W, T)>>, tags: Counter<T>, unknown: W)
    returns (emit: map<T, map<W, nat>>, total: nat)
    ensures emit == Emissions(Flatten(train), tags.keys, unknown)
    ensures total == |Flatten(train)|
  {
    var keys := tags.keys;
    emit := FillRows(map[], keys, [unknown]);
    ghost var zero := emit;
    total := 0;
    ghost var ps: seq<(W, T)> := [];
    for i := 0 to |train|
      invariant ps == Flatten(train[..i])
      invariant emit == EmitFold(zero, keys, ps)
      invariant total == |ps|
    {
      for j := 0 to |train[i]|
        invariant ps == Flatten(train[..i]) + train[i][..j]
        invariant emit == EmitFold(zero, keys, ps)
        invariant total == |ps|
      {
        var word, tag := train[i][j].0, train[i][j].1;
        EmitFoldSnoc(zero, keys, ps, train[i][j]);
        emit := AddWordToRows(emit, keys, word);
        emit := Bump(emit, tag, word);
        total := total + 1;
        StreamSnoc(train, i, j);
        ps := ps + [train[i][j]];
      }
      StreamNext(train, i);
    }
    assert train[..|train|] == train;
  }

  // ---------------------------------------------------------------------
  // The whole training stage

  /** The four count tables the training stage hands to smoothing. */
  datatype Counts<W, T> = Counts(tags: Counter<T>, initial: map<T, nat>, trans: map<T, map<T, nat>>, emit: map<T, map<W, nat>>)

  /** The tables of the training stage, or the exception the initial-count loop raises. */
  function Training<W(==, !new), T(==, !new)>(train: seq<seq<(W, T)>>, start: T, empty: T, unknown: W): Result<Counts<W, T>>
  {
    var tags := TagCounts(Flatten(train), start);
    var initial := Initial(train, tags.keys);
    if initial.Err? then Err(initial.error)
    else Ok(Counts(tags, initial.value, Transitions(train, tags.keys, empty), Emissions(Flatten(train), tags.keys, unknown)))
  }

  /** The training stage (algorithm.py lines 46-106 without the smoothing). */
  method Train<W(==, !new), T(==, !new)>(train: seq<seq<(W, T)>>, start: T, empty: T, unknown: W) returns (r: Result<Counts<W, T>>)
    ensures r == Training(train, start, empty, unknown)
  {
    var tags := CountTags(train, start);
    var initial := CountInitial(train, tags);
    if initial.Err? {
      return Err(initial.error);
    }
    var trans, _ := CountTransitions(train, tags, empty);
    var emit, _ := CountEmissions(train, tags, unknown);
    r := Ok(Counts(tags, initial.value, trans, emit));
  }

  /**
   * Training succeeds exactly when every sentence has a second token not
   * tagged `start`; the initial counts then sum to the number of sentences.
   * Otherwise the first sentence that breaks the rule decides the
   * exception: IndexError without a second token, KeyError for a `start`
   * second tag.
   */
  lemma TrainingAdmits<W(!new), T(!new)>(train: seq<seq<(W, T)>>, start: T, empty: T, unknown: W)
    ensures Training(train, start, empty, unknown).Ok? <==>
      forall i :: 0 <= i < |train| ==> HasSecond(train[i]) && train[i][1].1 != start
    ensures Training(train, start, empty, unknown).Ok? ==>
      SumOver(Training(train, start, empty, unknown).value.tags.keys, Training(train, start, empty, unknown).value.initial) == |train|
  {
    var tags := TagCounts(Flatten(train), start);
    TagCountsSpec(Flatten(train), start);
    InitialCounts(train, tags.keys);
    forall i | 0 <= i < |train|
      ensures Admitted(train[i], tags.keys) <==> HasSecond(train[i]) && train[i][1].1 != start
    {
      AdmittedByTags(train, start, i);
    }
    if Initial(train, tags.keys).Ok? {
      InitialSum(train, tags.keys);
    }
  }

  lemma TrainingFirstError<W(!new), T(!new)>(train: seq<seq<(W, T)>>, start: T, empty: T, unknown: W, i: nat)
    requires i < |train| && !(HasSecond(train[i]) && train[i][1].1 != start)
    requires forall i' :: 0 <= i' < i ==> HasSecond(train[i']) && train[i'][1].1 != start
    ensures Training(train, start, empty, unknown) == Err(if HasSecond(train[i]) then KeyError else IndexError)
  {
    var tags := TagCounts(Flatten(train), start);
    forall i' | 0 <= i' <= i
      ensures Admitted(train[i'], tags.keys) <==> HasSecond(train[i']) && train[i'][1].1 != start
    {
      AdmittedByTags(train, start, i');
    }
    InitialFirstError(train, tags.keys, i);
  }
}
