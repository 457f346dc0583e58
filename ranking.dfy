/**
 * Ranking of one row of the similarity matrix.
 *
 * `recommend` pairs every column of the query's row with its score
 * (`enumerate`) and sorts the pairs by score alone, highest first, with
 * Python's `sorted(..., reverse=True)`. That sort is stable, so pairs whose
 * scores tie keep their enumeration order, i.e. ascending column index.
 *
 * The sort is modelled as a stable insertion sort that compares scores only;
 * the lemmas below show that on enumerated input its result is ordered by
 * score and then by index, is a permutation of the columns, and is the only
 * sequence with those two properties (so any stable sort yields it).
 */
module SimilarityRanking {

  /** A similarity score; only `<` and `==` are ever applied to scores. */
  type Score = real

  /** One column of a similarity row: its position and its score. */
  datatype Scored = Scored(index: nat, score: Score)

  /** The pairs of `enumerate(row)`, in column order. */
  function Enumerate(row: seq<Score>): seq<Scored>
  {
    seq(|row|, k requires 0 <= k < |row| => Scored(k, row[k]))
  }

  /** `a` ranks ahead of `b`: a higher score, or an equal score and a smaller column. */
  predicate Before(a: Scored, b: Scored)
  {
    a.score > b.score || (a.score == b.score && a.index < b.index)
  }

  /** Every entry ranks ahead of every later entry. */
  ghost predicate StrictlyRanked(s: seq<Scored>)
  {
    forall i, j :: 0 <= i < j < |s| ==> Before(s[i], s[j])
  }

  /** Column `j` appears somewhere in `s`. */
  ghost predicate HasColumn(s: seq<Scored>, j: nat)
  {
    exists k :: 0 <= k < |s| && s[k].index == j
  }

  /** The columns of `row` that rank ahead of column `q`. */
  ghost function Ahead(row: seq<Score>, q: nat): set<nat>
    requires q < |row|
  {
    set j: nat | j < |row| && Before(Scored(j, row[j]), Scored(q, row[q]))
  }

  /** The columns at the first `p` positions of `s`. */
  ghost function ColumnsBefore(s: seq<Scored>, p: nat): set<nat>
    requires p <= |s|
  {
    set k | 0 <= k < p :: s[k].index
  }

  /** The columns appear in ascending order, as `enumerate` produces them. */
  ghost predicate IndicesAscending(s: seq<Scored>)
  {
    forall i, j :: 0 <= i < j < |s| ==> s[i].index < s[j].index
  }

  /**
   * Inserts `x` into a sequence sorted by descending score, after every entry
   * whose score is not below `x`'s: a later equal key goes behind earlier ones.
   */
  function InsertByScore(s: seq<Scored>, x: Scored): (r: seq<Scored>)
    ensures |r| == |s| + 1
    ensures multiset(r) == multiset(s) + multiset{x}
  {
    if s == [] then [x]
    else if s[0].score < x.score then [x] + s
    else
      assert s == [s[0]] + s[1..];
      [s[0]] + InsertByScore(s[1..], x)
  }

  /** `sorted(ps, key=score, reverse=True)`: a stable sort by descending score. */
  function SortByScoreDesc(ps: seq<Scored>): (r: seq<Scored>)
    ensures |r| == |ps|
    ensures multiset(r) == multiset(ps)
  {
    if ps == [] then []
    else
      var n := |ps| - 1;
      assert ps == ps[..n] + [ps[n]];
      InsertByScore(SortByScoreDesc(ps[..n]), ps[n])
  }

  /** The ranked pairs of one similarity row, before any are dropped. */
  function Ranking(row: seq<Score>): seq<Scored>
  {
    SortByScoreDesc(Enumerate(row))
  }

  /** Inserting an entry whose column exceeds every column already ranked keeps the order strict. */
  lemma {:induction false} InsertKeepsRanked(s: seq<Scored>, x: Scored)
    requires StrictlyRanked(s)
    requires forall k :: 0 <= k < |s| ==> s[k].index < x.index
    ensures StrictlyRanked(InsertByScore(s, x))
  {
    if s == [] {
    } else if s[0].score < x.score {
      var r := [x] + s;
      assert InsertByScore(s, x) == r;
      forall i, j | 0 <= i < j < |r| ensures Before(r[i], r[j]) {
        if i == 0 {
          if j > 1 {
            assert Before(s[0], s[j - 1]);
          }
        } else {
          assert Before(s[i - 1], s[j - 1]);
        }
      }
    } else {
      var t := InsertByScore(s[1..], x);
      InsertKeepsRanked(s[1..], x);
      var r := [s[0]] + t;
      assert InsertByScore(s, x) == r;
      forall i, j | 0 <= i < j < |r| ensures Before(r[i], r[j]) {
        if i == 0 {
          var e := t[j - 1];
          assert e in multiset(t);
          if e != x {
            assert e in s[1..];
            var m :| 0 <= m < |s[1..]| && s[1..][m] == e;
            assert Before(s[0], s[m + 1]);
          }
        } else {
          assert r[i] == t[i - 1] && r[j] == t[j - 1];
        }
      }
    }
  }

  /** On input whose columns ascend, the stable sort orders by score and then by column. */
  lemma {:induction false} SortRanksAscendingInput(ps: seq<Scored>)
    requires IndicesAscending(ps)
    ensures StrictlyRanked(SortByScoreDesc(ps))
  {
    if ps != [] {
      var n := |ps| - 1;
      var prefix := ps[..n];
      SortRanksAscendingInput(prefix);
      var t := SortByScoreDesc(prefix);
      forall k | 0 <= k < |t| ensures t[k].index < ps[n].index {
        assert t[k] in multiset(prefix);
        assert t[k] in prefix;
        var m :| 0 <= m < n && prefix[m] == t[k];
      }
      InsertKeepsRanked(t, ps[n]);
    }
  }

  /**
   * Scores in the ranking never increase, and equal scores appear in
   * ascending column order (the stability of the sort).
   */
  lemma RankingOrdered(row: seq<Score>)
    ensures StrictlyRanked(Ranking(row))
    ensures forall i, j :: 0 <= i < j < |Ranking(row)| ==>
      Ranking(row)[i].score >= Ranking(row)[j].score &&
      (Ranking(row)[i].score == Ranking(row)[j].score ==> Ranking(row)[i].index < Ranking(row)[j].index)
  {
    SortRanksAscendingInput(Enumerate(row));
  }

  /**
   * The ranking is a permutation of the columns 0..|row|-1, each paired with
   * its own score: every column appears, exactly once.
   */
  lemma RankingCoversEveryColumn(row: seq<Score>)
    ensures |Ranking(row)| == |row|
    ensures forall k :: 0 <= k < |Ranking(row)| ==>
      Ranking(row)[k].index < |row| && Ranking(row)[k].score == row[Ranking(row)[k].index]
    ensures forall j :: 0 <= j < |row| ==> HasColumn(Ranking(row), j)
    ensures forall k, l :: 0 <= k < l < |Ranking(row)| ==> Ranking(row)[k].index != Ranking(row)[l].index
  {
    var r := Ranking(row);
    var e := Enumerate(row);
    forall k | 0 <= k < |r| ensures r[k].index < |row| && r[k].score == row[r[k].index] {
      assert r[k] in multiset(e);
      assert r[k] in e;
      var m :| 0 <= m < |e| && e[m] == r[k];
    }
    forall j | 0 <= j < |row| ensures HasColumn(r, j) {
      assert e[j] in multiset(r);
      assert e[j] in r;
      var k :| 0 <= k < |r| && r[k] == e[j];
    }
    RankingOrdered(row);
    forall k, l | 0 <= k < l < |r| ensures r[k].index != r[l].index {
      assert Before(r[k], r[l]);
    }
  }

  /** Dropping the head of a sequence removes one occurrence of it from its multiset. */
  lemma MultisetOfTail(s: seq<Scored>)
    requires s != []
    ensures multiset(s[1..]) == multiset(s) - multiset{s[0]}
  {
    assert s == [s[0]] + s[1..];
  }

  /** Two nonempty strictly ranked arrangements of the same entries start with the same entry. */
  lemma RankedHeadsAgree(a: seq<Scored>, b: seq<Scored>)
    requires multiset(a) == multiset(b) && a != [] && b != []
    requires StrictlyRanked(a) && StrictlyRanked(b)
    ensures a[0] == b[0]
  {
    var a0, b0 := a[0], b[0];
    assert b0 in multiset(a);
    assert b0 in a;
    var i :| 0 <= i < |a| && a[i] == b0;
    assert i == 0 || Before(a0, b0);
    assert a0 in multiset(b);
    assert a0 in b;
    var j :| 0 <= j < |b| && b[j] == a0;
    assert j == 0 || Before(b0, a0);
  }

  /** Two strictly ranked arrangements of the same entries are the same sequence. */
  lemma {:induction false} StrictlyRankedUnique(a: seq<Scored>, b: seq<Scored>)
    requires multiset(a) == multiset(b)
    requires StrictlyRanked(a) && StrictlyRanked(b)
    ensures a == b
  {
    assert |a| == |multiset(a)| == |multiset(b)| == |b|;
    if a != [] {
      RankedHeadsAgree(a, b);
      MultisetOfTail(a);
      MultisetOfTail(b);
      StrictlyRankedUnique(a[1..], b[1..]);
    }
  }

  /**
   * Any arrangement of a row's columns that is ordered by score and then by
   * column is the ranking: the result of the sort does not depend on how a
   * stable sort is carried out.
   */
  lemma RankingIsTheOnlyOrder(row: seq<Score>, s: seq<Scored>)
    requires multiset(s) == multiset(Enumerate(row))
    requires StrictlyRanked(s)
    ensures s == Ranking(row)
  {
    RankingOrdered(row);
    StrictlyRankedUnique(s, Ranking(row));
  }

  /**
   * The first-ranked entry is column `q` exactly when `q` ranks ahead of
   * every other column: its score beats theirs, or ties and `q` is smaller.
   */
  lemma FirstRankedIsIff(row: seq<Score>, q: nat)
    requires q < |row|
    ensures |Ranking(row)| == |row|
    ensures Ranking(row)[0].index == q <==>
      forall j :: 0 <= j < |row| && j != q ==> Before(Scored(q, row[q]), Scored(j, row[j]))
  {
    var r := Ranking(row);
    RankingCoversEveryColumn(row);
    RankingOrdered(row);
    if r[0].index == q {
      forall j | 0 <= j < |row| && j != q ensures Before(Scored(q, row[q]), Scored(j, row[j])) {
        assert HasColumn(r, j);
        var k :| 0 <= k < |r| && r[k].index == j;
        assert Before(r[0], r[k]);
      }
    } else {
      assert HasColumn(r, q);
      var p :| 0 <= p < |r| && r[p].index == q;
      assert Before(r[0], r[p]);
      var j := r[0].index;
      assert !Before(Scored(q, row[q]), Scored(j, row[j]));
    }
  }

  /** Distinct columns at the first `p` positions make a set of `p` columns. */
  lemma {:induction false} ColumnsBeforeSize(s: seq<Scored>, p: nat)
    requires p <= |s|
    requires forall k, l :: 0 <= k < l < |s| ==> s[k].index != s[l].index
    ensures |ColumnsBefore(s, p)| == p
  {
    if p > 0 {
      ColumnsBeforeSize(s, p - 1);
      assert ColumnsBefore(s, p) == ColumnsBefore(s, p - 1) + {s[p - 1].index};
      assert s[p - 1].index !in ColumnsBefore(s, p - 1);
    }
  }

  /**
   * The column at rank position `p` has exactly `p` columns ranked ahead of
   * it: a column's position in the ranking is the number of columns that
   * beat it, or tie with it at a smaller column.
   */
  lemma RankPositionIsNumberAhead(row: seq<Score>, p: nat)
    requires p < |row|
    ensures |Ranking(row)| == |row| && Ranking(row)[p].index < |row|
    ensures |Ahead(row, Ranking(row)[p].index)| == p
  {
    var r := Ranking(row);
    RankingCoversEveryColumn(row);
    RankingOrdered(row);
    var q := r[p].index;
    assert r[p] == Scored(q, row[q]);
    forall m | p <= m < |r| ensures r[m].index !in Ahead(row, q) {
      assert m == p || Before(r[p], r[m]);
    }
    forall j | j in Ahead(row, q) ensures j in ColumnsBefore(r, p) {
      assert HasColumn(r, j);
      var pj :| 0 <= pj < |r| && r[pj].index == j;
      assert pj < p;
    }
    forall j | j in ColumnsBefore(r, p) ensures j in Ahead(row, q) {
      var k :| 0 <= k < p && r[k].index == j;
      assert Before(r[k], r[p]);
    }
    assert Ahead(row, q) == ColumnsBefore(r, p);
    ColumnsBeforeSize(r, p);
  }
}
