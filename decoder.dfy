/**
 * The decoding stage of `viterbi`, step by step: the trellis and the back
 * pointers are two-dimensional arrays of `tags × (len(sentence) - 1)`
 * filled column by column, the backtrace follows the pointers from the
 * best cell of the last column, and every test sentence is decoded in
 * turn. Each method is proved equal to its specification in `Trellis`.
 */
module Decoder {
  import opened Corpus
  import opened Counters
  import opened Trellis
  import Trainer

  /** Column `c` of the trellis array holds trellis column `c`. */
  ghost predicate ColumnHolds<W(!new), T(!new)>(s: Scores<W, T>, w: seq<W>, trellis: array2<int>, c: nat)
    requires Shaped(s) && c < |w| - 1
    reads trellis
  {
    && trellis.Length0 == |s.tags| && trellis.Length1 == |w| - 1
    && forall t :: 0 <= t < |s.tags| ==> trellis[t, c] == Col(s, w, c)[t]
  }

  /** The first trellis column: `initial_prob[tag]` plus the word's emission, `'UKNOWN'` as the fallback key. */
  method FirstColumn<W(==, !new), T(!new)>(s: Scores<W, T>, w: seq<W>, trellis: array2<int>)
    requires Shaped(s) && |w| >= 2
    requires trellis.Length0 == |s.tags| && trellis.Length1 == |w| - 1
    modifies trellis
    ensures ColumnHolds(s, w, trellis, 0)
    ensures forall t, c :: 0 <= t < |s.tags| && 1 <= c < |w| - 1 ==> trellis[t, c] == old(trellis[t, c])
  {
    for t := 0 to |s.tags|
      invariant forall t' :: 0 <= t' < t ==> trellis[t', 0] == Col(s, w, 0)[t']
      invariant forall t', c :: 0 <= t' < |s.tags| && 1 <= c < |w| - 1 ==> trellis[t', c] == old(trellis[t', c])
    {
      var e := if w[1] in s.emit[t] then s.emit[t][w[1]] else Lookup(s.emit[t], s.misspelt);
      trellis[t, 0] := s.initial[t] + e;
    }
  }

  /**
   * The scan over the previous tags for tag `t` in column `c`: the running
   * best starts at the floor, `best_k` at 0 and `best_tag` at `'EMPTY'`,
   * and a candidate replaces them only when it is strictly greater.
   */
  method BestPrev<W(==, !new), T(!new)>(s: Scores<W, T>, w: seq<W>, trellis: array2<int>, c: nat, t: nat)
    returns (bestK: nat, bestTag: Prev)
    requires Shaped(s) && 1 <= c < |w| - 1 && t < |s.tags|
    requires trellis.Length0 == |s.tags| && trellis.Length1 == |w| - 1
    requires ColumnHolds(s, w, trellis, c - 1)
    ensures bestK == Ptr(s, w, c, t)
    ensures bestTag == Settled(Scan(Cands(s, Col(s, w, c - 1), t, w[c + 1]), FLOOR))
  {
    ghost var vals := Cands(s, Col(s, w, c - 1), t, w[c + 1]);
    var formula := if w[c + 1] in s.emit[t] then s.emit[t][w[c + 1]] else Lookup(s.emit[t], s.unknown);
    var best := FLOOR;
    bestK, bestTag := 0, Unmatched;
    for k := 0 to |s.tags|
      invariant (bestK, best) == Scan(vals[..k], FLOOR)
      invariant best >= FLOOR
      invariant bestTag == Settled((bestK, best))
    {
      var cand := trellis[k, c - 1] + s.trans[k][t] + formula;
      assert cand == vals[k];
      ScanSnoc(vals, FLOOR, k);
      if cand > best {
        best, bestK, bestTag := cand, k, From(k);
      }
    }
    assert vals[..|s.tags|] == vals;
  }

  /** Cell `(t, c)` of the trellis and of the pointers, for `c >= 1`. */
  method FillCell<W(==, !new), T(!new)>(s: Scores<W, T>, w: seq<W>, trellis: array2<int>, pointers: array2<nat>, c: nat, t: nat)
    requires Shaped(s) && 1 <= c < |w| - 1 && t < |s.tags|
    requires pointers.Length0 == |s.tags| && pointers.Length1 == |w| - 1
    requires ColumnHolds(s, w, trellis, c - 1)
    modifies trellis, pointers
    ensures trellis[t, c] == Col(s, w, c)[t] && pointers[t, c] == Ptr(s, w, c, t)
    ensures forall t', c' :: 0 <= t' < |s.tags| && 0 <= c' < |w| - 1 && (t' != t || c' != c) ==> trellis[t', c'] == old(trellis[t', c'])
    ensures forall t', c' :: 0 <= t' < |s.tags| && 0 <= c' < |w| - 1 && (t' != t || c' != c) ==> pointers[t', c'] == old(pointers[t', c'])
  {
    var formula := if w[c + 1] in s.emit[t] then s.emit[t][w[c + 1]] else Lookup(s.emit[t], s.unknown);
    var bestK, bestTag := BestPrev(s, w, trellis, c, t);
    var link := match bestTag
      case Unmatched => s.unmatched[t]
      case From(k) => s.trans[k][t];
    assert Col(s, w, c)[t] == Step(s, Col(s, w, c - 1), t, w[c + 1]);
    trellis[t, c] := trellis[bestK, c - 1] + link + formula;
    pointers[t, c] := bestK;
  }

  /** The pointers of column `c >= 1` hold the scans' `best_k`. */
  ghost predicate PointersHold<W(!new), T(!new)>(s: Scores<W, T>, w: seq<W>, pointers: array2<nat>, c: nat)
    requires Shaped(s) && 1 <= c < |w| - 1
    reads pointers
  {
    && pointers.Length0 == |s.tags| && pointers.Length1 == |w| - 1
    && forall t :: 0 <= t < |s.tags| ==> pointers[t, c] == Ptr(s, w, c, t)
  }

  /** Column `c >= 1` of the trellis and of the pointers, from column `c - 1` of the trellis. */
  method FillColumn<W(==, !new), T(!new)>(s: Scores<W, T>, w: seq<W>, trellis: array2<int>, pointers: array2<nat>, c: nat)
    requires Shaped(s) && 1 <= c < |w| - 1
    requires pointers.Length0 == |s.tags| && pointers.Length1 == |w| - 1
    requires ColumnHolds(s, w, trellis, c - 1)
    modifies trellis, pointers
    ensures ColumnHolds(s, w, trellis, c) && PointersHold(s, w, pointers, c)
    ensures forall t, c' :: 0 <= t < |s.tags| && 0 <= c' < |w| - 1 && c' != c ==> trellis[t, c'] == old(trellis[t, c'])
    ensures forall t, c' :: 0 <= t < |s.tags| && 0 <= c' < |w| - 1 && c' != c ==> pointers[t, c'] == old(pointers[t, c'])
  {
    for t := 0 to |s.tags|
      invariant ColumnHolds(s, w, trellis, c - 1)
      invariant forall t' :: 0 <= t' < t ==> trellis[t', c] == Col(s, w, c)[t']
      invariant forall t' :: 0 <= t' < t ==> pointers[t', c] == Ptr(s, w, c, t')
      invariant forall t', c' :: 0 <= t' < |s.tags| && 0 <= c' < |w| - 1 && c' != c ==> trellis[t', c'] == old(trellis[t', c'])
      invariant forall t', c' :: 0 <= t' < |s.tags| && 0 <= c' < |w| - 1 && c' != c ==> pointers[t', c'] == old(pointers[t', c'])
    {
      FillCell(s, w, trellis, pointers, c, t);
    }
  }

  /** The tag id the backtrace starts from: the first cell of the last column above the floor and greatest. */
  method FinalTag<W(==, !new), T(!new)>(s: Scores<W, T>, w: seq<W>, trellis: array2<int>) returns (kBest: nat)
    requires Shaped(s) && |s.tags| > 0 && |w| >= 2
    requires trellis.Length0 == |s.tags| && trellis.Length1 == |w| - 1
    requires ColumnHolds(s, w, trellis, |w| - 2)
    ensures kBest == Final(s, w)
  {
    ghost var col := Col(s, w, |w| - 2);
    var best := FLOOR;
    kBest := 0;
    for k := 0 to |s.tags|
      invariant (kBest, best) == Scan(col[..k], FLOOR)
    {
      ScanSnoc(col, FLOOR, k);
      if trellis[k, |w| - 2] > best {
        best, kBest := trellis[k, |w| - 2], k;
      }
    }
    assert col[..|s.tags|] == col;
  }

  /**
   * From the last word back to `w[1]`: append the word with the tag of
   * `k_best`, then move `k_best` to the pointer stored for it one column
   * to the left.
   */
  method Backtrace<W, T>(w: seq<W>, tags: seq<T>, pointers: array2<nat>, ghost ptr: seq<seq<nat>>, k: nat)
    returns (path: seq<(W, T)>)
    requires |w| >= 2 && |ptr| == |w| - 1 && Pointing(ptr, |tags|) && k < |tags|
    requires pointers.Length0 == |tags| && pointers.Length1 == |w| - 1
    requires forall t, c :: 0 <= t < |tags| && 0 <= c < |w| - 1 ==> pointers[t, c] == ptr[c][t]
    ensures path == Back(w, tags, ptr, |w| - 2, k)
  {
    path := [];
    var kBest: nat := k;
    var j := |w| - 1;
    while j > 0
      invariant 0 <= j <= |w| - 1 && kBest < |tags|
      invariant j > 0 ==> path + Back(w, tags, ptr, j - 1, kBest) == Back(w, tags, ptr, |w| - 2, k)
      invariant j == 0 ==> path == Back(w, tags, ptr, |w| - 2, k)
      decreases j
    {
      ghost var rest := if j == 1 then [] else Back(w, tags, ptr, j - 2, ptr[j - 1][kBest]);
      ghost var before := path;
      assert Back(w, tags, ptr, j - 1, kBest) == [(w[j], tags[kBest])] + rest;
      path := path + [(w[j], tags[kBest])];
      assert path + rest == before + ([(w[j], tags[kBest])] + rest);
      kBest := pointers[kBest, j - 1];
      j := j - 1;
    }
  }

  /** The pointer array holds the pointer table of the specification. */
  lemma PointerArray<W(!new), T(!new)>(s: Scores<W, T>, w: seq<W>, pointers: array2<nat>)
    requires Shaped(s) && |w| >= 2
    requires pointers.Length0 == |s.tags| && pointers.Length1 == |w| - 1
    requires forall t :: 0 <= t < |s.tags| ==> pointers[t, 0] == 0
    requires forall t, c :: 0 <= t < |s.tags| && 1 <= c < |w| - 1 ==> pointers[t, c] == Ptr(s, w, c, t)
    ensures forall t, c :: 0 <= t < |s.tags| && 0 <= c < |w| - 1 ==> pointers[t, c] == Pointers(s, w)[c][t]
  {
    forall t, c | 0 <= t < |s.tags| && 0 <= c < |w| - 1
      ensures pointers[t, c] == Pointers(s, w)[c][t]
    {
      if c > 0 {
        PointersAt(s, w, c, t);
      }
    }
  }

  /** The decoding of one test sentence `w`, ending with `best_path.reverse()`. */
  method Decode<W(==, !new), T(!new)>(s: Scores<W, T>, w: seq<W>, start: (W, T)) returns (r: Result<seq<(W, T)>>)
    requires Shaped(s)
    ensures r == Decoded(s, w, start)
  {
    var n := |s.tags|;
    if |w| < 2 {
      // `test[i][1]` raises for the first tag; without tags the backtrace is empty.
      if n > 0 {
        return Err(IndexError);
      }
      return Ok([start]);
    }
    var trellis := new int[n, |w| - 1]((t, c) => 0);
    var pointers := new nat[n, |w| - 1]((t, c) => 0);
    FirstColumn(s, w, trellis);
    for j := 2 to |w|
      invariant forall t, c :: 0 <= t < n && 0 <= c < j - 1 ==> trellis[t, c] == Col(s, w, c)[t]
      invariant forall t, c :: 0 <= t < n && 1 <= c < j - 1 ==> pointers[t, c] == Ptr(s, w, c, t)
      invariant forall t :: 0 <= t < n ==> pointers[t, 0] == 0
    {
      assert ColumnHolds(s, w, trellis, j - 2);
      FillColumn(s, w, trellis, pointers, j - 1);
    }
    if n == 0 {
      // `pointers[k_best]` on an empty table.
      return Err(IndexError);
    }
    assert ColumnHolds(s, w, trellis, |w| - 2);
    var kBest := FinalTag(s, w, trellis);
    PointerArray(s, w, pointers);
    var path := Backtrace(w, s.tags, pointers, Pointers(s, w), kBest);
    return Ok(Reverse(path + [start]));
  }

  // ---------------------------------------------------------------------
  // All test sentences

  /** A list of per-item results as one result: the values in order, or the first exception. */
  function Collect<X>(rs: seq<Result<X>>): Result<seq<X>>
  {
    if |rs| == 0 then Ok([])
    else
      var prev := Collect(rs[..|rs| - 1]);
      if prev.Err? then prev
      else if rs[|rs| - 1].Err? then Err(rs[|rs| - 1].error)
      else Ok(prev.value + [rs[|rs| - 1].value])
  }

  lemma CollectSnoc<X>(rs: seq<Result<X>>, i: nat)
    requires i < |rs|
    ensures Collect(rs[..i + 1]) ==
      var prev := Collect(rs[..i]);
      if prev.Err? then prev else if rs[i].Err? then Err(rs[i].error) else Ok(prev.value + [rs[i].value])
  {
    assert rs[..i + 1][..i] == rs[..i];
  }

  /** Once a prefix fails, the whole list fails with the same exception. */
  lemma {:induction false} CollectErr<X>(rs: seq<Result<X>>, i: nat)
    requires i <= |rs| && Collect(rs[..i]).Err?
    ensures Collect(rs) == Collect(rs[..i])
    decreases |rs| - i
  {
    if i < |rs| {
      CollectSnoc(rs, i);
      CollectErr(rs, i + 1);
    } else {
      assert rs[..i] == rs;
    }
  }

  /**
   * Collecting succeeds exactly when every item does, and then holds every
   * value in order; otherwise it raises the exception of the first failing
   * item.
   */
  lemma {:induction false} CollectSpec<X>(rs: seq<Result<X>>)
    ensures Collect(rs).Ok? <==> forall i :: 0 <= i < |rs| ==> rs[i].Ok?
    ensures Collect(rs).Ok? ==> |Collect(rs).value| == |rs| && forall i :: 0 <= i < |rs| ==> Collect(rs).value[i] == rs[i].value
    ensures Collect(rs).Err? ==>
      exists i :: 0 <= i < |rs| && rs[i].Err? && Collect(rs).error == rs[i].error && (forall j :: 0 <= j < i ==> rs[j].Ok?)
  {
    if |rs| > 0 {
      var init := rs[..|rs| - 1];
      CollectSpec(init);
      assert forall i :: 0 <= i < |init| ==> init[i] == rs[i];
    }
  }

  /** The result of every test sentence, in order. */
  function Results<W(==, !new), T(!new)>(s: Scores<W, T>, test: seq<seq<W>>, start: (W, T)): (rs: seq<Result<seq<(W, T)>>>)
    requires Shaped(s)
    ensures |rs| == |test|
  {
    seq(|test|, i requires 0 <= i < |test| => Decoded(s, test[i], start))
  }

  /** The list of decoded sentences; the first sentence that raises ends the run. */
  function DecodedAll<W(==, !new), T(!new)>(s: Scores<W, T>, test: seq<seq<W>>, start: (W, T)): Result<seq<seq<(W, T)>>>
    requires Shaped(s)
  {
    Collect(Results(s, test, start))
  }

  /**
   * The run succeeds exactly when no test sentence is too short for a
   * non-empty tag set and, without tags, every test sentence is that short;
   * it then holds one decoded sentence per test sentence, in order.
   * Otherwise it raises IndexError.
   */
  lemma DecodedAllSpec<W(!new), T(!new)>(s: Scores<W, T>, test: seq<seq<W>>, start: (W, T))
    requires Shaped(s)
    ensures DecodedAll(s, test, start).Ok? <==>
      forall i :: 0 <= i < |test| ==> !((|s.tags| > 0 && |test[i]| < 2) || (|s.tags| == 0 && |test[i]| >= 2))
    ensures DecodedAll(s, test, start).Ok? ==>
      && |DecodedAll(s, test, start).value| == |test|
      && forall i :: 0 <= i < |test| ==> Decoded(s, test[i], start) == Ok(DecodedAll(s, test, start).value[i])
    ensures DecodedAll(s, test, start).Err? ==> DecodedAll(s, test, start).error == IndexError
  {
    var rs := Results(s, test, start);
    CollectSpec(rs);
    forall i | 0 <= i < |test|
      ensures rs[i] == Decoded(s, test[i], start)
      ensures rs[i].Err? <==> (|s.tags| > 0 && |test[i]| < 2) || (|s.tags| == 0 && |test[i]| >= 2)
      ensures rs[i].Err? ==> rs[i].error == IndexError
    {
      DecodedErr(s, test[i], start);
    }
  }

  /** `for i in range(len(test))`: decode every sentence and collect the results. */
  method DecodeAll<W(==, !new), T(!new)>(s: Scores<W, T>, test: seq<seq<W>>, start: (W, T)) returns (r: Result<seq<seq<(W, T)>>>)
    requires Shaped(s)
    ensures r == DecodedAll(s, test, start)
  {
    ghost var rs := Results(s, test, start);
    var result: seq<seq<(W, T)>> := [];
    for i := 0 to |test|
      invariant Collect(rs[..i]) == Ok(result)
    {
      CollectSnoc(rs, i);
      var d := Decode(s, test[i], start);
      assert d == rs[i];
      if d.Err? {
        CollectErr(rs, i + 1);
        return Err(d.error);
      }
      result := result + [d.value];
    }
    assert rs[..|test|] == rs;
    return Ok(result);
  }

  // ---------------------------------------------------------------------
  // Training and decoding together

  /**
   * The decoder's tables are the smoothed training counts: the tags in the
   * order of the tag Counter, and for every tag the same emission keys as
   * its count row, since smoothing only replaces the values.
   */
  ghost predicate Conforms<W(!new), T(!new)>(c: Trainer.Counts<W, T>, s: Scores<W, T>)
  {
    && Shaped(s)
    && s.tags == c.tags.keys
    && forall t, x :: 0 <= t < |s.tags| ==> (x in s.emit[t] <==> x in Trainer.RowOf(c.emit, s.tags[t]))
  }

  /**
   * `viterbi(train, test)`: count, then decode every test sentence with
   * tables that conform to the counts. A training exception is raised
   * before any sentence is decoded.
   */
  method Viterbi<W(==, !new), T(==, !new)>(train: seq<seq<(W, T)>>, test: seq<seq<W>>, s: Scores<W, T>, start: (W, T), empty: T)
    returns (r: Result<seq<seq<(W, T)>>>)
    requires Shaped(s)
    requires Trainer.Training(train, start.1, empty, s.unknown).Ok? ==> Conforms(Trainer.Training(train, start.1, empty, s.unknown).value, s)
    ensures Trainer.Training(train, start.1, empty, s.unknown).Err? ==> r == Err(Trainer.Training(train, start.1, empty, s.unknown).error)
    ensures Trainer.Training(train, start.1, empty, s.unknown).Ok? ==> r == DecodedAll(s, test, start)
  {
    var counts := Trainer.Train(train, start.1, empty, s.unknown);
    if counts.Err? {
      return Err(counts.error);
    }
    r := DecodeAll(s, test, start);
  }

  /**
   * With conforming tables a word has its own emission score for a tag
   * exactly when it is `'UNKNOWN'` or occurs in the training corpus: the
   * decoder falls back on the unknown score for every other word.
   */
  lemma KnownWords<W(!new), T(!new)>(train: seq<seq<(W, T)>>, s: Scores<W, T>, start: T, empty: T, t: nat, x: W)
    requires Trainer.Training(train, start, empty, s.unknown).Ok?
    requires Conforms(Trainer.Training(train, start, empty, s.unknown).value, s)
    requires t < |s.tags|
    ensures x in s.emit[t] <==> x == s.unknown || HasWord(Flatten(train), x)
    ensures x !in s.emit[t] ==> Emit(s, t, x) == Lookup(s.emit[t], s.unknown)
  {
    var c := Trainer.Training(train, start, empty, s.unknown).value;
    Trainer.TagCountsSpec(Flatten(train), start);
    Trainer.EmissionsSpec(Flatten(train), c.tags.keys, s.unknown);
    assert s.tags[t] in c.tags.keys;
  }
}
