/**
 * What the Viterbi decoder computes for one test sentence, stated over
 * given integer score tables: the trellis column by column, the back
 * pointers, the backtrace, and the output sentence. Tag ids are positions
 * in the `tags` Counter's insertion order. The scores stand for the
 * smoothed log probabilities of the source; the smoothing itself is not
 * modelled, only how the decoder combines and compares the scores.
 */
module Trellis {
  import opened Corpus
  import opened Counters

  /** The running best starts here: -(2**63 - 2). */
  const FLOOR: int := -(0x7FFF_FFFF_FFFF_FFFF - 1)

  /**
   * The decoder's tables, by tag id: `initial[t]` is `initial_prob[tags[t]]`,
   * `trans[k][t]` is `transition_prob[tags[k]][tags[t]]`, `emit[t]` is the
   * row `emission_prob[tags[t]]` (its keys matter: the decoder tests word
   * membership), and `unmatched[t]` is `transition_prob['EMPTY'][tags[t]]`,
   * the score read when no previous tag beat the floor. `unknown` is the
   * word `'UNKNOWN'` that `formula` falls back on, `misspelt` the word
   * `'UKNOWN'` that the first column falls back on.
   */
  datatype Scores<W, T> = Scores(tags: seq<T>, initial: seq<int>, trans: seq<seq<int>>, unmatched: seq<int>, emit: seq<map<W, int>>, unknown: W, misspelt: W)

  /** Every table has one entry per tag, and `trans` is square. */
  ghost predicate Shaped<W(!new), T(!new)>(s: Scores<W, T>)
  {
    && |s.initial| == |s.tags|
    && |s.trans| == |s.tags|
    && |s.unmatched| == |s.tags|
    && |s.emit| == |s.tags|
    && (forall k :: 0 <= k < |s.tags| ==> |s.trans[k]| == |s.tags|)
  }

  /** The first column's emission score: the word's own, else `emission_prob[tag]["UKNOWN"]`. */
  function EmitFirst<W(==, !new), T(!new)>(s: Scores<W, T>, t: nat, x: W): int
    requires t < |s.emit|
  {
    if x in s.emit[t] then s.emit[t][x] else Lookup(s.emit[t], s.misspelt)
  }

  /** `formula`: the word's emission score, else `emission_prob[tag]["UNKNOWN"]`. */
  function Emit<W(==, !new), T(!new)>(s: Scores<W, T>, t: nat, x: W): int
    requires t < |s.emit|
  {
    if x in s.emit[t] then s.emit[t][x] else Lookup(s.emit[t], s.unknown)
  }

  /** The first trellis column, `initial_prob[tag] + emission` for the word `w[1]`. */
  function First<W(==, !new), T(!new)>(s: Scores<W, T>, w: seq<W>): (col: seq<int>)
    requires Shaped(s) && |w| >= 2
    ensures |col| == |s.tags|
  {
    seq(|s.tags|, t requires 0 <= t < |s.tags| => s.initial[t] + EmitFirst(s, t, w[1]))
  }

  /** The candidate for tag `t` from previous tag `k`: `trellis[k][j-2] + trans[k][t] + formula`. */
  function Cand<W(==, !new), T(!new)>(s: Scores<W, T>, prev: seq<int>, t: nat, x: W, k: nat): int
    requires Shaped(s) && |prev| == |s.tags| && t < |s.tags| && k < |s.tags|
  {
    prev[k] + s.trans[k][t] + Emit(s, t, x)
  }

  /** The candidates for tag `t` after column `prev`, one per previous tag. */
  function Cands<W(==, !new), T(!new)>(s: Scores<W, T>, prev: seq<int>, t: nat, x: W): (vals: seq<int>)
    requires Shaped(s) && |prev| == |s.tags| && t < |s.tags|
    ensures |vals| == |s.tags|
    ensures forall k :: 0 <= k < |vals| ==> vals[k] == Cand(s, prev, t, x, k)
  {
    seq(|prev|, k requires 0 <= k < |prev| => Cand(s, prev, t, x, k))
  }

  /** `best_tag`: no previous tag yet (`'EMPTY'`), or the tag with id `k`. */
  datatype Prev = Unmatched | From(k: nat)

  /** `transition_prob[best_tag][tags[t]]`. */
  function Link<W(==, !new), T(!new)>(s: Scores<W, T>, p: Prev, t: nat): int
    requires Shaped(s) && t < |s.tags|
    requires p.From? ==> p.k < |s.tags|
  {
    match p
    case Unmatched => s.unmatched[t]
    case From(k) => s.trans[k][t]
  }

  /** The previous tag the scan settles on: `From(best_k)` once a candidate beat the floor. */
  function Settled(b: (nat, int)): Prev
  {
    if b.1 > FLOOR then From(b.0) else Unmatched
  }

  /**
   * The trellis cell for tag `t`: the scan over the candidates picks
   * `best_k` and `best_tag`, and the cell is
   * `prev[best_k] + transition_prob[best_tag][t] + formula`.
   */
  function Step<W(==, !new), T(!new)>(s: Scores<W, T>, prev: seq<int>, t: nat, x: W): int
    requires Shaped(s) && |prev| == |s.tags| && t < |s.tags|
  {
    var b := Scan(Cands(s, prev, t, x), FLOOR);
    prev[b.0] + Link(s, Settled(b), t) + Emit(s, t, x)
  }

  /** Trellis column `c` (it scores the word `w[c + 1]`). */
  function Col<W(==, !new), T(!new)>(s: Scores<W, T>, w: seq<W>, c: nat): (col: seq<int>)
    requires Shaped(s) && c < |w| - 1
    ensures |col| == |s.tags|
    decreases c
  {
    if c == 0 then First(s, w)
    else
      var prev := Col(s, w, c - 1);
      seq(|s.tags|, t requires 0 <= t < |s.tags| => Step(s, prev, t, w[c + 1]))
  }

  /** The back pointer stored for tag `t` in column `c >= 1`: the `best_k` of its scan. */
  function Ptr<W(==, !new), T(!new)>(s: Scores<W, T>, w: seq<W>, c: nat, t: nat): (k: nat)
    requires Shaped(s) && 1 <= c < |w| - 1 && t < |s.tags|
    ensures k < |s.tags|
  {
    Scan(Cands(s, Col(s, w, c - 1), t, w[c + 1]), FLOOR).0
  }

  /** The tag id the backtrace starts from: the first maximum of the last column above the floor. */
  function Final<W(==, !new), T(!new)>(s: Scores<W, T>, w: seq<W>): (k: nat)
    requires Shaped(s) && |s.tags| > 0 && |w| >= 2
    ensures k < |s.tags|
  {
    Scan(Col(s, w, |w| - 2), FLOOR).0
  }

  /** A table of back pointers for `n` tags: a row of `n` tag ids per column. */
  ghost predicate Pointing(ptr: seq<seq<nat>>, n: nat)
  {
    forall c :: 0 <= c < |ptr| ==> |ptr[c]| == n && forall t :: 0 <= t < n ==> ptr[c][t] < n
  }

  /** The `pointers` table: column 0 stays 0, column `c >= 1` holds the `best_k` of every tag. */
  function Pointers<W(==, !new), T(!new)>(s: Scores<W, T>, w: seq<W>): (ptr: seq<seq<nat>>)
    requires Shaped(s) && |w| >= 2
    ensures |ptr| == |w| - 1 && Pointing(ptr, |s.tags|)
  {
    seq(|w| - 1, c requires 0 <= c < |w| - 1 =>
      if c == 0 then seq(|s.tags|, t => 0)
      else seq(|s.tags|, t requires 0 <= t < |s.tags| => Ptr(s, w, c, t)))
  }

  /** The pairs the backtrace appends from column `c` down to column 0, starting at tag id `k`. */
  function Back<W, T>(w: seq<W>, tags: seq<T>, ptr: seq<seq<nat>>, c: nat, k: nat): (ps: seq<(W, T)>)
    requires c < |w| - 1 && c < |ptr| && Pointing(ptr, |tags|) && k < |tags|
    ensures |ps| == c + 1
    decreases c
  {
    [(w[c + 1], tags[k])] + (if c == 0 then [] else Back(w, tags, ptr, c - 1, ptr[c][k]))
  }

  /** `list.reverse()`. */
  function Reverse<P>(xs: seq<P>): (r: seq<P>)
    ensures |r| == |xs|
  {
    if |xs| == 0 then [] else [xs[|xs| - 1]] + Reverse(xs[..|xs| - 1])
  }

  /** Position `i` of the reversed sequence holds position `|xs| - 1 - i` of the original. */
  lemma {:induction false} ReverseAt<P>(xs: seq<P>, i: nat)
    requires i < |xs|
    ensures Reverse(xs)[i] == xs[|xs| - 1 - i]
  {
    if i > 0 {
      var init := xs[..|xs| - 1];
      ReverseAt(init, i - 1);
      assert Reverse(xs) == [xs[|xs| - 1]] + Reverse(init);
    }
  }

  /**
   * The decoder's result for one test sentence `w`: without tags the
   * backtrace's `pointers[0]` raises IndexError unless `w` has fewer than
   * two words; with tags, `w[1]` raises IndexError when `w` is shorter.
   */
  function Decoded<W(==, !new), T(!new)>(s: Scores<W, T>, w: seq<W>, start: (W, T)): Result<seq<(W, T)>>
    requires Shaped(s)
  {
    if |s.tags| == 0 then (if |w| < 2 then Ok([start]) else Err(IndexError))
    else if |w| < 2 then Err(IndexError)
    else Ok(Reverse(Back(w, s.tags, Pointers(s, w), |w| - 2, Final(s, w)) + [start]))
  }

  // ---------------------------------------------------------------------
  // The recurrence

  /**
   * Each cell of a later column is the first greatest candidate
   * `trellis[k][j-2] + trans[k][t] + formula`, and its pointer is that `k`,
   * whenever some candidate beat the floor; otherwise the pointer is 0 and
   * the cell reads the unmatched row.
   */
  lemma StepSpec<W(!new), T(!new)>(s: Scores<W, T>, w: seq<W>, c: nat, t: nat)
    requires Shaped(s) && 1 <= c < |w| - 1 && t < |s.tags|
    ensures var vals, k := Cands(s, Col(s, w, c - 1), t, w[c + 1]), Ptr(s, w, c, t);
      if exists k' :: 0 <= k' < |vals| && vals[k'] > FLOOR then
        && Col(s, w, c)[t] == vals[k]
        && (forall k' :: 0 <= k' < |vals| ==> vals[k'] <= Col(s, w, c)[t])
        && (forall k' :: 0 <= k' < k ==> vals[k'] < Col(s, w, c)[t])
      else
        && k == 0
        && Col(s, w, c)[t] == Col(s, w, c - 1)[0] + s.unmatched[t] + Emit(s, t, w[c + 1])
  {
    var vals := Cands(s, Col(s, w, c - 1), t, w[c + 1]);
    ScanSpec(vals, FLOOR);
  }

  // ---------------------------------------------------------------------
  // The backtrace and the output sentence

  /** The tag ids of the path that ends at tag id `k` in column `c`, column 0 first. */
  function TagPath(ptr: seq<seq<nat>>, n: nat, c: nat, k: nat): (p: seq<nat>)
    requires c < |ptr| && Pointing(ptr, n) && k < n
    ensures |p| == c + 1 && p[c] == k
    ensures forall i :: 0 <= i < |p| ==> p[i] < n
    decreases c
  {
    (if c == 0 then [] else TagPath(ptr, n, c - 1, ptr[c][k])) + [k]
  }

  /** The backtrace appends, last column first, the words with the tags of TagPath. */
  lemma {:induction false} BackAt<W, T>(w: seq<W>, tags: seq<T>, ptr: seq<seq<nat>>, c: nat, k: nat, i: nat)
    requires c < |w| - 1 && c < |ptr| && Pointing(ptr, |tags|) && k < |tags| && i <= c
    ensures Back(w, tags, ptr, c, k)[i] == (w[c + 1 - i], tags[TagPath(ptr, |tags|, c, k)[c - i]])
    decreases c
  {
    if i > 0 {
      var k' := ptr[c][k];
      var back, path := Back(w, tags, ptr, c - 1, k'), TagPath(ptr, |tags|, c - 1, k');
      BackAt(w, tags, ptr, c - 1, k', i - 1);
      assert Back(w, tags, ptr, c, k) == [(w[c + 1], tags[k])] + back;
      assert TagPath(ptr, |tags|, c, k) == path + [k];
      assert ([(w[c + 1], tags[k])] + back)[i] == back[i - 1];
      assert (path + [k])[c - i] == path[c - i];
    }
  }

  /** Column `c >= 1` of the pointer table holds the scan's `best_k`. */
  lemma PointersAt<W(!new), T(!new)>(s: Scores<W, T>, w: seq<W>, c: nat, t: nat)
    requires Shaped(s) && 1 <= c < |w| - 1 && t < |s.tags|
    ensures Pointers(s, w)[c][t] == Ptr(s, w, c, t)
  {
  }

  /** The path the pointers lead back along from tag id `k` in column `c`, column 0 first. */
  function Traced<W(==, !new), T(!new)>(s: Scores<W, T>, w: seq<W>, c: nat, k: nat): (p: seq<nat>)
    requires Shaped(s) && c < |w| - 1 && k < |s.tags|
    ensures |p| == c + 1 && p[c] == k
    ensures forall i :: 0 <= i < |p| ==> p[i] < |s.tags|
    decreases c
  {
    (if c == 0 then [] else Traced(s, w, c - 1, Ptr(s, w, c, k))) + [k]
  }

  /** `ptr` is a pointer table whose columns `c >= 1` hold the scans' `best_k`. */
  ghost predicate Agrees<W(!new), T(!new)>(s: Scores<W, T>, w: seq<W>, ptr: seq<seq<nat>>)
    requires Shaped(s)
  {
    && |ptr| == |w| - 1 && Pointing(ptr, |s.tags|)
    && forall c, t :: 1 <= c < |ptr| && 0 <= t < |s.tags| ==> ptr[c][t] == Ptr(s, w, c, t)
  }

  lemma PointersAgree<W(!new), T(!new)>(s: Scores<W, T>, w: seq<W>)
    requires Shaped(s) && |w| >= 2
    ensures Agrees(s, w, Pointers(s, w))
  {
    forall c, t | 1 <= c < |w| - 1 && 0 <= t < |s.tags|
      ensures Pointers(s, w)[c][t] == Ptr(s, w, c, t)
    {
      PointersAt(s, w, c, t);
    }
  }

  /** Following an agreeing pointer table is following the pointers column by column. */
  lemma {:induction false} TracedTable<W(!new), T(!new)>(s: Scores<W, T>, w: seq<W>, ptr: seq<seq<nat>>, c: nat, k: nat)
    requires Shaped(s) && Agrees(s, w, ptr) && c < |w| - 1 && k < |s.tags|
    ensures TagPath(ptr, |s.tags|, c, k) == Traced(s, w, c, k)
    decreases c
  {
    if c > 0 {
      TracedTable(s, w, ptr, c - 1, ptr[c][k]);
    }
  }

  /**
   * A decoded sentence has one pair per word: `('START', 'START')` first,
   * then every word `w[j]` with the tag of column `j - 1` of the path the
   * pointers lead back from the final tag.
   */
  lemma DecodedShape<W(!new), T(!new)>(s: Scores<W, T>, w: seq<W>, start: (W, T))
    requires Shaped(s) && Decoded(s, w, start).Ok?
    ensures |Decoded(s, w, start).value| == if |w| < 2 then 1 else |w|
    ensures Decoded(s, w, start).value[0] == start
    ensures |w| >= 2 ==> forall j :: 1 <= j < |w| ==>
      Decoded(s, w, start).value[j] == (w[j], s.tags[Traced(s, w, |w| - 2, Final(s, w))[j - 1]])
  {
    if |w| >= 2 {
      PointersAgree(s, w);
      ReversedTrace(w, s.tags, Pointers(s, w), Final(s, w), start);
      TracedTable(s, w, Pointers(s, w), |w| - 2, Final(s, w));
    }
  }

  /** The reversed backtrace with the start pair: start first, then every word with its path's tag. */
  lemma ReversedTrace<W, T>(w: seq<W>, tags: seq<T>, ptr: seq<seq<nat>>, k: nat, start: (W, T))
    requires |w| >= 2 && |ptr| == |w| - 1 && Pointing(ptr, |tags|) && k < |tags|
    ensures var r := Reverse(Back(w, tags, ptr, |w| - 2, k) + [start]);
      && |r| == |w| && r[0] == start
      && forall j :: 1 <= j < |w| ==> r[j] == (w[j], tags[TagPath(ptr, |tags|, |w| - 2, k)[j - 1]])
  {
    var c := |w| - 2;
    var back := Back(w, tags, ptr, c, k);
    var path := TagPath(ptr, |tags|, c, k);
    ReverseSnocAt(back, start, 0);
    forall j | 1 <= j < |w|
      ensures Reverse(back + [start])[j] == (w[j], tags[path[j - 1]])
    {
      ReverseSnocAt(back, start, j);
      BackAt(w, tags, ptr, c, k, c + 1 - j);
    }
  }

  /** Reversing a sequence with one more element puts that element first. */
  lemma ReverseSnocAt<P>(xs: seq<P>, x: P, j: nat)
    requires j <= |xs|
    ensures Reverse(xs + [x])[j] == if j == 0 then x else xs[|xs| - j]
  {
    ReverseAt(xs + [x], j);
  }

  /** The decoder fails exactly on a sentence too short for a tag set that is not empty, or on an empty tag set. */
  lemma DecodedErr<W(!new), T(!new)>(s: Scores<W, T>, w: seq<W>, start: (W, T))
    requires Shaped(s)
    ensures Decoded(s, w, start).Err? <==> (|s.tags| > 0 && |w| < 2) || (|s.tags| == 0 && |w| >= 2)
    ensures Decoded(s, w, start).Err? ==> Decoded(s, w, start).error == IndexError
  {
  }

  // ---------------------------------------------------------------------
  // Optimality

  /** Every score the decoder can read is within `b` of 0. */
  ghost predicate Bounded<W(!new), T(!new)>(s: Scores<W, T>, b: int)
  {
    && 0 <= b
    && (forall t :: 0 <= t < |s.initial| ==> -b <= s.initial[t] <= b)
    && (forall k, t :: 0 <= k < |s.trans| && 0 <= t < |s.trans[k]| ==> -b <= s.trans[k][t] <= b)
    && (forall t, x :: 0 <= t < |s.emit| && x in s.emit[t] ==> -b <= s.emit[t][x] <= b)
  }

  /** How far below 0 a cell of column `c` can fall with scores bounded by `b`: `(2c + 2) b`. */
  function Reach(c: nat, b: int): int
  {
    if c == 0 then 2 * b else Reach(c - 1, b) + 2 * b
  }

  lemma {:induction false} ReachMono(c: nat, d: nat, b: int)
    requires c <= d && 0 <= b
    ensures Reach(c, b) <= Reach(d, b)
    decreases d
  {
    if c < d {
      ReachMono(c, d - 1, b);
    }
  }

  /** The sentence is short enough that no sum of its scores reaches the floor. */
  predicate Roomy<W>(w: seq<W>, b: int)
  {
    Reach(|w|, b) < -FLOOR
  }

  /** The score of a sequence of tag ids for the words `w[1..]`: initial, emissions and transitions. */
  function PathScore<W(==, !new), T(!new)>(s: Scores<W, T>, w: seq<W>, p: seq<nat>): int
    requires Shaped(s) && 1 <= |p| < |w|
    requires forall i :: 0 <= i < |p| ==> p[i] < |s.tags|
  {
    if |p| == 1 then s.initial[p[0]] + EmitFirst(s, p[0], w[1])
    else
      var q := p[..|p| - 1];
      PathScore(s, w, q) + s.trans[p[|p| - 2]][p[|p| - 1]] + Emit(s, p[|p| - 1], w[|p|])
  }

  lemma EmitBounded<W(!new), T(!new)>(s: Scores<W, T>, b: int, t: nat, x: W)
    requires Shaped(s) && Bounded(s, b) && t < |s.tags|
    ensures -b <= Emit(s, t, x) <= b && -b <= EmitFirst(s, t, x) <= b
  {
  }

  /**
   * With bounded scores on a roomy sentence, each cell of column `c` is at
   * least `-Reach(c, b)`, and for `c >= 1` every candidate of the cell
   * beats the floor.
   */
  lemma {:induction false} ColLower<W(!new), T(!new)>(s: Scores<W, T>, w: seq<W>, b: int, c: nat, t: nat)
    requires Shaped(s) && Bounded(s, b) && Roomy(w, b) && c < |w| - 1 && t < |s.tags|
    ensures Col(s, w, c)[t] >= -Reach(c, b)
    decreases c
  {
    EmitBounded(s, b, t, w[c + 1]);
    if c > 0 {
      var vals := Cands(s, Col(s, w, c - 1), t, w[c + 1]);
      CandLower(s, w, b, c, t, 0);
      ScanSpec(vals, FLOOR);
      assert Col(s, w, c)[t] == Step(s, Col(s, w, c - 1), t, w[c + 1]);
    }
  }

  lemma {:induction false} CandLower<W(!new), T(!new)>(s: Scores<W, T>, w: seq<W>, b: int, c: nat, t: nat, k: nat)
    requires Shaped(s) && Bounded(s, b) && Roomy(w, b) && 1 <= c < |w| - 1 && t < |s.tags| && k < |s.tags|
    ensures Cand(s, Col(s, w, c - 1), t, w[c + 1], k) >= -Reach(c, b)
    ensures Cand(s, Col(s, w, c - 1), t, w[c + 1], k) > FLOOR
    decreases c, 0
  {
    ColLower(s, w, b, c - 1, k);
    EmitBounded(s, b, t, w[c + 1]);
    ReachMono(c, |w|, b);
  }

  /** The candidate from previous tag `k` for tag `t` in column `c >= 1`. */
  function CandAt<W(==, !new), T(!new)>(s: Scores<W, T>, w: seq<W>, c: nat, t: nat, k: nat): int
    requires Shaped(s) && 1 <= c < |w| - 1 && t < |s.tags| && k < |s.tags|
  {
    Cand(s, Col(s, w, c - 1), t, w[c + 1], k)
  }

  /** With bounded scores on a roomy sentence each later cell is its greatest candidate, the one its pointer names. */
  lemma CandsAboveFloor<W(!new), T(!new)>(s: Scores<W, T>, w: seq<W>, b: int, c: nat, t: nat)
    requires Shaped(s) && Bounded(s, b) && Roomy(w, b) && 1 <= c < |w| - 1 && t < |s.tags|
    ensures Col(s, w, c)[t] == CandAt(s, w, c, t, Ptr(s, w, c, t))
    ensures forall k :: 0 <= k < |s.tags| ==> CandAt(s, w, c, t, k) <= Col(s, w, c)[t]
  {
    CandLower(s, w, b, c, t, 0);
    StepSpec(s, w, c, t);
  }

  /** A path one column longer scores its prefix plus one transition and one emission. */
  lemma PathScoreSnoc<W(!new), T(!new)>(s: Scores<W, T>, w: seq<W>, p: seq<nat>)
    requires Shaped(s) && 2 <= |p| < |w|
    requires forall i :: 0 <= i < |p| ==> p[i] < |s.tags|
    ensures PathScore(s, w, p) == PathScore(s, w, p[..|p| - 1]) + s.trans[p[|p| - 2]][p[|p| - 1]] + Emit(s, p[|p| - 1], w[|p|])
  {
  }

  /** The pointers lead back along a path that scores exactly the cell. */
  lemma {:induction false} PathAttains<W(!new), T(!new)>(s: Scores<W, T>, w: seq<W>, b: int, c: nat, t: nat)
    requires Shaped(s) && Bounded(s, b) && Roomy(w, b) && c < |w| - 1 && t < |s.tags|
    ensures PathScore(s, w, Traced(s, w, c, t)) == Col(s, w, c)[t]
    decreases c
  {
    if c > 0 {
      var k := Ptr(s, w, c, t);
      CandsAboveFloor(s, w, b, c, t);
      PathAttains(s, w, b, c - 1, k);
      var p := Traced(s, w, c, t);
      assert p[..c] == Traced(s, w, c - 1, k);
      PathScoreSnoc(s, w, p);
    }
  }

  /** No path that ends with tag `p[c]` in column `c` scores more than that cell. */
  lemma {:induction false} PathBelow<W(!new), T(!new)>(s: Scores<W, T>, w: seq<W>, b: int, c: nat, p: seq<nat>)
    requires Shaped(s) && Bounded(s, b) && Roomy(w, b) && c < |w| - 1
    requires |p| == c + 1 && forall i :: 0 <= i < |p| ==> p[i] < |s.tags|
    ensures PathScore(s, w, p) <= Col(s, w, c)[p[c]]
    decreases c
  {
    if c > 0 {
      var q := p[..c];
      PathBelow(s, w, b, c - 1, q);
      CandsAboveFloor(s, w, b, c, p[c]);
      PathScoreSnoc(s, w, p);
      assert CandAt(s, w, c, p[c], q[c - 1]) <= Col(s, w, c)[p[c]];
    }
  }

  /**
   * The Viterbi property, column by column: with bounded scores, cell
   * `(t, c)` is the best score of any tag sequence that ends with `t` in
   * column `c`, and the pointers lead back along one that attains it.
   */
  lemma ColOptimal<W(!new), T(!new)>(s: Scores<W, T>, w: seq<W>, b: int, c: nat, t: nat)
    requires Shaped(s) && Bounded(s, b) && Roomy(w, b) && c < |w| - 1 && t < |s.tags|
    ensures PathScore(s, w, Traced(s, w, c, t)) == Col(s, w, c)[t]
    ensures forall p: seq<nat> :: |p| == c + 1 && p[c] == t && (forall i :: 0 <= i < |p| ==> p[i] < |s.tags|) ==>
      PathScore(s, w, p) <= Col(s, w, c)[t]
  {
    PathAttains(s, w, b, c, t);
    forall p: seq<nat> | |p| == c + 1 && p[c] == t && (forall i :: 0 <= i < |p| ==> p[i] < |s.tags|)
      ensures PathScore(s, w, p) <= Col(s, w, c)[t]
    {
      PathBelow(s, w, b, c, p);
    }
  }

  /**
   * With bounded scores the decoded tags are a best-scoring tag sequence
   * for the sentence: no sequence of tag ids scores more.
   */
  lemma DecodedOptimal<W(!new), T(!new)>(s: Scores<W, T>, w: seq<W>, b: int)
    requires Shaped(s) && Bounded(s, b) && Roomy(w, b) && |s.tags| > 0 && |w| >= 2
    ensures forall p: seq<nat> :: |p| == |w| - 1 && (forall i :: 0 <= i < |p| ==> p[i] < |s.tags|) ==>
      PathScore(s, w, p) <= PathScore(s, w, Traced(s, w, |w| - 2, Final(s, w)))
  {
    var c := |w| - 2;
    var col := Col(s, w, c);
    var best := Traced(s, w, c, Final(s, w));
    ColLower(s, w, b, c, 0);
    ReachMono(c, |w|, b);
    ScanSpec(col, FLOOR);
    assert col[Final(s, w)] == Scan(col, FLOOR).1;
    PathAttains(s, w, b, c, Final(s, w));
    forall p: seq<nat> | |p| == |w| - 1 && (forall i :: 0 <= i < |p| ==> p[i] < |s.tags|)
      ensures PathScore(s, w, p) <= PathScore(s, w, best)
    {
      PathBelow(s, w, b, c, p);
      assert col[p[c]] <= Scan(col, FLOOR).1;
    }
  }
}
