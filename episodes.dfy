/**
 * Episode segmentation of a position series (p1.py).
 *
 * A series is a finite sequence of quantities indexed by position 0 .. |s|-1
 * (the unique, increasing date labels of the source map one-to-one onto
 * positions). An episode is the inclusive position range from the moment a
 * position is opened (zero -> non-zero) to the moment it is closed
 * (non-zero -> zero, the closing zero included), or to the last element when
 * it is still open at the end.
 */
module Episodes {

  import opened Sequences

  /** Inclusive position range [start, end] of one episode. */
  datatype Episode = Episode(start: nat, end: nat)

  /** One named column of a table. */
  datatype Column = Column(name: string, values: seq<int>)

  /**
   * What parseDf gives: the (name, episodes) pairs, or the first column whose
   * name occurs twice, where selecting the column yields a table instead of a
   * series and testing its quantities raises ValueError.
   */
  datatype TableResult = Parsed(ideas: seq<(string, seq<Episode>)>) | DuplicateColumn(name: string)

  /** Position k opens an episode: non-zero, and the previous quantity is zero or absent. */
  predicate IsEntry(s: seq<int>, k: nat)
  {
    k < |s| && s[k] != 0 && (k == 0 || s[k - 1] == 0)
  }

  /**
   * e is the episode entered at e.start: every value before e.end is non-zero,
   * and e.end is either the first zero after the entry (a closed episode) or
   * the last position of the series (an unterminated episode).
   */
  predicate WellFormed(s: seq<int>, e: Episode)
  {
    && IsEntry(s, e.start)
    && e.start <= e.end < |s|
    && (forall j :: e.start <= j < e.end ==> s[j] != 0)
    && (s[e.end] == 0 || e.end == |s| - 1)
  }

  predicate Covers(e: Episode, k: nat)
  {
    e.start <= k <= e.end
  }

  /** Episodes in increasing position order, pairwise disjoint. */
  predicate Ordered(eps: seq<Episode>)
  {
    forall i, j :: 0 <= i < j < |eps| ==> eps[i].end < eps[j].start
  }

  /** Some episode of eps contains position k. */
  predicate Covered(eps: seq<Episode>, k: nat)
  {
    exists i :: 0 <= i < |eps| && Covers(eps[i], k)
  }

  /** Every non-zero position of s lies in some episode of eps. */
  predicate CoversNonZero(s: seq<int>, eps: seq<Episode>)
  {
    forall k {:trigger Covered(eps, k)} :: 0 <= k < |s| && s[k] != 0 ==> Covered(eps, k)
  }

  /** The declarative meaning of the segmentation of s. */
  predicate IsSegmentation(s: seq<int>, eps: seq<Episode>)
  {
    && (forall i :: 0 <= i < |eps| ==> WellFormed(s, eps[i]))
    && Ordered(eps)
    && CoversNonZero(s, eps)
  }

  /** The values of the series that an episode spans (the source's inclusive label slice). */
  function Slice(s: seq<int>, e: Episode): (r: seq<int>)
    requires e.start <= e.end < |s|
    ensures |r| == e.end - e.start + 1
    ensures forall j :: 0 <= j < |r| ==> r[j] == s[e.start + j]
  {
    s[e.start..e.end + 1]
  }

  /**
   * What the fold of parseSeries knows after reading s[..i]: the emitted
   * episodes are well formed, ordered and end before i; an open entry, if
   * any, lies after all of them and is followed by non-zero values only; and
   * every non-zero value read so far is in an emitted episode or after the
   * open entry.
   */
  predicate FoldState(s: seq<int>, i: nat, ideas: seq<Episode>, open: bool, entry: nat)
  {
    && i <= |s|
    && (open ==> IsEntry(s, entry) && entry < i && forall j :: entry <= j < i ==> s[j] != 0)
    && (forall m :: 0 <= m < |ideas| ==> WellFormed(s, ideas[m]) && ideas[m].end < i)
    && (open ==> forall m :: 0 <= m < |ideas| ==> ideas[m].end < entry)
    && Ordered(ideas)
    && (forall k {:trigger Covered(ideas, k)} :: 0 <= k < i && s[k] != 0 ==> Covered(ideas, k) || (open && entry <= k))
  }

  /**
   * The left-to-right fold of parseSeries. The previous quantity starts at
   * zero; a zero -> non-zero step records an entry, a non-zero -> zero step
   * records an exit and emits the episode from the last entry to this exit;
   * an entry left without an exit emits a final episode to the last element.
   */
  method ParseSeries(s: seq<int>) returns (ideas: seq<Episode>)
    ensures IsSegmentation(s, ideas)
    ensures ideas == [] <==> forall k :: 0 <= k < |s| ==> s[k] == 0
  {
    ideas := [];
    var prev := 0;
    var enters: seq<nat> := [];
    var exits: seq<nat> := [];
    for i := 0 to |s|
      invariant prev == if i == 0 then 0 else s[i - 1]
      // at most one episode is open, and exactly when the previous quantity is non-zero
      invariant |enters| == |exits| || |enters| == |exits| + 1
      invariant |enters| == |exits| + 1 <==> prev != 0
      invariant FoldState(s, i, ideas, |enters| == |exits| + 1,
        if enters == [] then 0 else enters[|enters| - 1])
    {
      var quantity := s[i];
      if quantity != 0 && prev == 0 {
        EnterStep(s, i, ideas, if enters == [] then 0 else enters[|enters| - 1]);
        enters := enters + [i];
      } else if quantity == 0 && prev != 0 {
        exits := exits + [i];
        var e := Episode(enters[|enters| - 1], exits[|exits| - 1]);
        ExitStep(s, i, ideas, e.start);
        ideas := ideas + [e];
      } else {
        KeepStep(s, i, ideas, quantity != 0, if enters == [] then 0 else enters[|enters| - 1]);
      }
      prev := quantity;
    }
    if |enters| != |exits| {
      var e := Episode(enters[|enters| - 1], |s| - 1);
      FlushStep(s, ideas, e.start);
      ideas := ideas + [e];
    }
    if ideas != [] {
      assert WellFormed(s, ideas[0]);
    } else {
      forall k | 0 <= k < |s| ensures s[k] == 0 {
        assert !Covered(ideas, k);
      }
    }
  }

  /** A zero -> non-zero step opens an entry at i. */
  lemma EnterStep(s: seq<int>, i: nat, ideas: seq<Episode>, entry: nat)
    requires i < |s| && s[i] != 0 && (i == 0 || s[i - 1] == 0)
    requires FoldState(s, i, ideas, false, entry)
    ensures FoldState(s, i + 1, ideas, true, i)
  {
  }

  /** A non-zero -> zero step at i closes the open entry, emitting [entry, i]. */
  lemma ExitStep(s: seq<int>, i: nat, ideas: seq<Episode>, entry: nat)
    requires i < |s| && s[i] == 0
    requires FoldState(s, i, ideas, true, entry)
    ensures FoldState(s, i + 1, ideas + [Episode(entry, i)], false, entry)
  {
    var e := Episode(entry, i);
    CoveredExtend(ideas, e);
    assert WellFormed(s, e);
  }

  /** A step that neither opens nor closes keeps the state; open is whether s[i] is non-zero. */
  lemma KeepStep(s: seq<int>, i: nat, ideas: seq<Episode>, open: bool, entry: nat)
    requires i < |s| && (open <==> s[i] != 0)
    requires FoldState(s, i, ideas, open, entry)
    ensures FoldState(s, i + 1, ideas, open, entry)
  {
  }

  /** At the end, an open entry is emitted as an episode running to the last element. */
  lemma FlushStep(s: seq<int>, ideas: seq<Episode>, entry: nat)
    requires FoldState(s, |s|, ideas, true, entry)
    ensures IsSegmentation(s, ideas + [Episode(entry, |s| - 1)])
  {
    var e := Episode(entry, |s| - 1);
    CoveredExtend(ideas, e);
    assert WellFormed(s, e);
  }

  /** The name of column c occurs at another column too. */
  predicate Repeated(table: seq<Column>, c: nat)
    requires c < |table|
  {
    exists d :: 0 <= d < |table| && d != c && table[d].name == table[c].name
  }

  predicate DistinctNames(table: seq<Column>)
  {
    forall c, d :: 0 <= c < d < |table| ==> table[c].name != table[d].name
  }

  /**
   * parseDf: one (column name, episodes) pair per column, in the table's
   * column order. A repeated column name makes the scan of its first
   * occurrence raise, so the result is then that name.
   */
  method ParseTable(table: seq<Column>) returns (r: TableResult)
    ensures r.Parsed? <==> DistinctNames(table)
    ensures r.Parsed? ==> |r.ideas| == |table| && forall c :: 0 <= c < |table| ==>
      r.ideas[c].0 == table[c].name && IsSegmentation(table[c].values, r.ideas[c].1)
    ensures r.DuplicateColumn? ==>
      exists c :: 0 <= c < |table| && Repeated(table, c) && table[c].name == r.name &&
        forall b :: 0 <= b < c ==> !Repeated(table, b)
  {
    var ideas: seq<(string, seq<Episode>)> := [];
    for c := 0 to |table|
      invariant |ideas| == c
      invariant forall b :: 0 <= b < c ==> !Repeated(table, b)
      invariant forall d :: 0 <= d < c ==>
        ideas[d].0 == table[d].name && IsSegmentation(table[d].values, ideas[d].1)
    {
      if Repeated(table, c) {
        var d :| 0 <= d < |table| && d != c && table[d].name == table[c].name;
        assert !DistinctNames(table) by {
          if d < c {
            assert table[d].name == table[c].name;
          }
        }
        return DuplicateColumn(table[c].name);
      }
      var eps := ParseSeries(table[c].values);
      ideas := ideas + [(table[c].name, eps)];
    }
    forall c, d | 0 <= c < d < |table| ensures table[c].name != table[d].name {
      assert !Repeated(table, c);
    }
    r := Parsed(ideas);
  }

  /** Appending an episode keeps what was covered and adds its own positions. */
  lemma CoveredExtend(eps: seq<Episode>, e: Episode)
    ensures forall k :: Covered(eps + [e], k) <==> Covered(eps, k) || Covers(e, k)
  {
    forall k ensures Covered(eps + [e], k) <==> Covered(eps, k) || Covers(e, k) {
      if Covered(eps, k) {
        var m :| 0 <= m < |eps| && Covers(eps[m], k);
        assert (eps + [e])[m] == eps[m];
      }
      if Covers(e, k) {
        assert (eps + [e])[|eps|] == e;
      }
      if Covered(eps + [e], k) {
        var m :| 0 <= m < |eps| + 1 && Covers((eps + [e])[m], k);
        assert m < |eps| ==> (eps + [e])[m] == eps[m];
      }
    }
  }

  /** A covering episode of an entry position starts at that position. */
  lemma CoveringEpisodeStartsAtEntry(s: seq<int>, e: Episode, k: nat)
    requires WellFormed(s, e) && IsEntry(s, k) && Covers(e, k)
    ensures e.start == k
  {
    assert k == 0 || s[k - 1] == 0;
  }

  /** Two well-formed episodes with the same entry end at the same position. */
  lemma SameEntrySameEnd(s: seq<int>, e: Episode, f: Episode)
    requires WellFormed(s, e) && WellFormed(s, f) && e.start == f.start
    ensures e == f
  {
    assert s[e.end] == 0 || e.end == |s| - 1;
    assert s[f.end] == 0 || f.end == |s| - 1;
  }

  /** The entry positions of a list of episodes, in list order. */
  function Starts(eps: seq<Episode>): (r: seq<nat>)
    ensures |r| == |eps| && forall i :: 0 <= i < |eps| ==> r[i] == eps[i].start
  {
    seq(|eps|, i requires 0 <= i < |eps| => eps[i].start)
  }

  /** The episodes of a segmentation start exactly at the entries of the series, in increasing order. */
  lemma StartsAreEntries(s: seq<int>, eps: seq<Episode>)
    requires IsSegmentation(s, eps)
    ensures Increasing(Starts(eps))
    ensures forall k :: k in Starts(eps) <==> IsEntry(s, k)
  {
    var st := Starts(eps);
    forall i, j | 0 <= i < j < |st| ensures st[i] < st[j] {
      assert WellFormed(s, eps[i]);
    }
    forall k ensures k in st <==> IsEntry(s, k) {
      if k in st {
        var i :| 0 <= i < |st| && st[i] == k;
        assert WellFormed(s, eps[i]);
      }
      if IsEntry(s, k) {
        assert Covered(eps, k);
        var m :| 0 <= m < |eps| && Covers(eps[m], k);
        CoveringEpisodeStartsAtEntry(s, eps[m], k);
        assert st[m] == k;
      }
    }
  }

  /** The segmentation is determined by the series: at most one list satisfies IsSegmentation. */
  lemma SegmentationUnique(s: seq<int>, a: seq<Episode>, b: seq<Episode>)
    requires IsSegmentation(s, a) && IsSegmentation(s, b)
    ensures a == b
  {
    StartsAreEntries(s, a);
    StartsAreEntries(s, b);
    IncreasingSameElements(Starts(a), Starts(b));
    forall i | 0 <= i < |a| ensures a[i] == b[i] {
      assert Starts(a)[i] == Starts(b)[i];
      SameEntrySameEnd(s, a[i], b[i]);
    }
  }

  /** Every non-zero position lies in exactly one episode. */
  lemma ExactlyOneEpisode(s: seq<int>, eps: seq<Episode>, k: nat)
    requires IsSegmentation(s, eps)
    requires k < |s| && s[k] != 0
    ensures exists i :: 0 <= i < |eps| && Covers(eps[i], k)
    ensures forall i, j :: 0 <= i < |eps| && 0 <= j < |eps| && Covers(eps[i], k) && Covers(eps[j], k) ==> i == j
  {
    assert Covered(eps, k);
  }

  /** Every episode but the last ends on the zero that closes it. */
  lemma OnlyLastUnterminated(s: seq<int>, eps: seq<Episode>)
    requires IsSegmentation(s, eps)
    ensures forall i :: 0 <= i < |eps| - 1 ==> s[eps[i].end] == 0
  {
    forall i | 0 <= i < |eps| - 1
      ensures s[eps[i].end] == 0
    {
      assert WellFormed(s, eps[i]) && WellFormed(s, eps[i + 1]);
      assert eps[i].end < eps[i + 1].start;
    }
  }

  /**
   * The last episode is unterminated (ends non-zero, at the last element)
   * exactly when the series ends non-zero.
   */
  lemma UnterminatedIffEndsNonZero(s: seq<int>, eps: seq<Episode>)
    requires IsSegmentation(s, eps)
    ensures |s| > 0 && s[|s| - 1] != 0 <==>
      |eps| > 0 && s[eps[|eps| - 1].end] != 0
    ensures |s| > 0 && s[|s| - 1] != 0 ==> eps[|eps| - 1].end == |s| - 1
  {
    if |s| > 0 && s[|s| - 1] != 0 {
      assert Covered(eps, |s| - 1);
      var m :| 0 <= m < |eps| && Covers(eps[m], |s| - 1);
      CoversLastIsLast(s, eps, m);
    }
    if |eps| > 0 {
      EndsNonZeroAtLast(s, eps[|eps| - 1]);
    }
  }

  /**
   * The values of an episode, as the source's inclusive slice returns them:
   * they start non-zero and stay non-zero up to the last one, which is the
   * closing zero unless the episode runs to the end of the series; every
   * episode but the last is closed by a zero.
   */
  lemma EpisodeValues(s: seq<int>, eps: seq<Episode>, m: nat)
    requires IsSegmentation(s, eps) && m < |eps|
    ensures var v := Slice(s, eps[m]);
      && v[0] != 0
      && (forall j :: 0 <= j < |v| - 1 ==> v[j] != 0)
      && (v[|v| - 1] == 0 || eps[m].end == |s| - 1)
      && (m < |eps| - 1 ==> v[|v| - 1] == 0)
  {
    assert WellFormed(s, eps[m]);
    OnlyLastUnterminated(s, eps);
  }

  /** An episode that ends on a non-zero value ends at the last element. */
  lemma EndsNonZeroAtLast(s: seq<int>, e: Episode)
    requires WellFormed(s, e)
    ensures s[e.end] != 0 ==> e.end == |s| - 1
  {
  }

  lemma CoversLastIsLast(s: seq<int>, eps: seq<Episode>, m: nat)
    requires forall i :: 0 <= i < |eps| ==> WellFormed(s, eps[i])
    requires Ordered(eps)
    requires |s| > 0 && m < |eps| && Covers(eps[m], |s| - 1)
    ensures m == |eps| - 1 && eps[m].end == |s| - 1
  {
    var last := |eps| - 1;
    assert WellFormed(s, eps[m]);
    assert eps[last].end < |s|;
  }

  /** [0,1,2,3,0] has the single episode of positions 1..4, whose values are [1,2,3,0]. */
  lemma OneClosedEpisode(eps: seq<Episode>)
    requires IsSegmentation([0, 1, 2, 3, 0], eps)
    ensures eps == [Episode(1, 4)]
    ensures Slice([0, 1, 2, 3, 0], eps[0]) == [1, 2, 3, 0]
  {
    var s := [0, 1, 2, 3, 0];
    var e := Episode(1, 4);
    assert WellFormed(s, e);
    forall k | 0 <= k < |s| && s[k] != 0 ensures Covered([e], k) {
      assert Covers([e][0], k);
    }
    SegmentationUnique(s, eps, [e]);
  }

  /** An all-zero series has no episode. */
  lemma AllZeroNoEpisode(eps: seq<Episode>)
    requires IsSegmentation([0, 0, 0, 0, 0], eps)
    ensures eps == []
  {
    SegmentationUnique([0, 0, 0, 0, 0], eps, []);
  }

  /** Two well-formed, ordered episodes that together contain every non-zero value segment s. */
  lemma TwoEpisodes(s: seq<int>, e: Episode, f: Episode)
    requires WellFormed(s, e) && WellFormed(s, f) && e.end < f.start
    requires forall k :: 0 <= k < |s| && s[k] != 0 ==> Covers(e, k) || Covers(f, k)
    ensures IsSegmentation(s, [e, f])
  {
    var eps := [e, f];
    assert eps[0] == e && eps[1] == f;
    assert forall i :: 0 <= i < |eps| ==> WellFormed(s, eps[i]);
    assert Ordered(eps);
    forall k | 0 <= k < |s| && s[k] != 0 ensures Covered(eps, k) {
      assert Covers(eps[0], k) || Covers(eps[1], k);
    }
    assert CoversNonZero(s, eps);
  }

  /** Back-to-back episodes: [0,1,2,0,3,0] gives [1,2,0] at 1..3 and [3,0] at 4..5. */
  lemma BackToBackEpisodes(eps: seq<Episode>)
    requires IsSegmentation([0, 1, 2, 0, 3, 0], eps)
    ensures eps == [Episode(1, 3), Episode(4, 5)]
  {
    var s := [0, 1, 2, 0, 3, 0];
    var expected := [Episode(1, 3), Episode(4, 5)];
    TwoEpisodes(s, expected[0], expected[1]);
    SegmentationUnique(s, eps, expected);
  }

  /** A series starting non-zero is entered at position 0: [1,2,0,3,0] gives 0..2 and 3..4. */
  lemma EntryAtFirstPosition(eps: seq<Episode>)
    requires IsSegmentation([1, 2, 0, 3, 0], eps)
    ensures eps == [Episode(0, 2), Episode(3, 4)]
  {
    var s := [1, 2, 0, 3, 0];
    var expected := [Episode(0, 2), Episode(3, 4)];
    TwoEpisodes(s, expected[0], expected[1]);
    SegmentationUnique(s, eps, expected);
  }

  /** A series ending non-zero: [0,1,2,0,3] gives 1..3 and the unterminated 4..4, whose values are [3]. */
  lemma TrailingOpenEpisode(eps: seq<Episode>)
    requires IsSegmentation([0, 1, 2, 0, 3], eps)
    ensures eps == [Episode(1, 3), Episode(4, 4)]
    ensures Slice([0, 1, 2, 0, 3], eps[1]) == [3]
  {
    var s := [0, 1, 2, 0, 3];
    var expected := [Episode(1, 3), Episode(4, 4)];
    TwoEpisodes(s, expected[0], expected[1]);
    SegmentationUnique(s, eps, expected);
  }
}
