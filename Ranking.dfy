/**
 * Ranking of one similarity row, shared by the offline script and the app:
 * `sorted(list(enumerate(row)), reverse=True, key=lambda x: x[1])[lo:hi]`.
 * Python's sort is stable also with `reverse=True`, and `enumerate` lists positions in
 * ascending order, so equal scores stay in ascending position order.
 */
module Ranking {
  import opened Common

  /** One element of `enumerate(row)`: a row position paired with its similarity score. */
  datatype Scored = Scored(index: nat, score: real)

  /** `list(enumerate(row))` */
  function Enumerate(row: seq<real>): seq<Scored>
  {
    seq(|row|, k requires 0 <= k < |row| => Scored(k, row[k]))
  }

  /** Positions strictly increase along `s`, as they do along `enumerate(row)`. */
  ghost predicate IndexIncreasing(s: seq<Scored>)
  {
    forall i, j :: 0 <= i < j < |s| ==> s[i].index < s[j].index
  }

  /** `a` is ranked ahead of `b`: a higher score, or the same score and an earlier position. */
  predicate Ahead(a: Scored, b: Scored)
  {
    a.score > b.score || (a.score == b.score && a.index < b.index)
  }

  /** Scores never increase along `s`, and equal scores appear in ascending position order. */
  ghost predicate Ranked(s: seq<Scored>)
  {
    forall i, j :: 0 <= i < j < |s| ==> Ahead(s[i], s[j])
  }

  /**
   * Inserts `p`, which came before every element of `s` in the input, in front of the first
   * element whose score does not exceed its own: ahead of its ties, as a stable sort keeps it.
   */
  function InsertAhead(p: Scored, s: seq<Scored>): (r: seq<Scored>)
    ensures |r| == |s| + 1
    ensures multiset(r) == multiset(s) + multiset{p}
  {
    if s == [] || s[0].score <= p.score then [p] + s
    else
      assert s == [s[0]] + s[1..];
      [s[0]] + InsertAhead(p, s[1..])
  }

  /** A stable sort by descending score (an insertion sort). */
  function SortDesc(s: seq<Scored>): (r: seq<Scored>)
    ensures |r| == |s|
    ensures multiset(r) == multiset(s)
  {
    if s == [] then []
    else
      assert s == [s[0]] + s[1..];
      InsertAhead(s[0], SortDesc(s[1..]))
  }

  /** `sorted(list(enumerate(row)), reverse=True, key=lambda x: x[1])` */
  function RankRow(row: seq<real>): seq<Scored>
  {
    SortDesc(Enumerate(row))
  }

  /** Python's `s[lo:hi]` for non-negative bounds: both bounds are clamped to the length. */
  function Slice<T>(s: seq<T>, lo: nat, hi: nat): (r: seq<T>)
    ensures |r| == if lo < hi && lo < |s| then Min(hi, |s|) - lo else 0
    ensures forall k :: 0 <= k < |r| ==> r[k] == s[lo + k]
  {
    if lo < hi && lo < |s| then s[lo..Min(hi, |s|)] else []
  }

  /** The candidates a recommender walks: ranked positions `lo` up to, not including, `hi`. */
  function Window(row: seq<real>, lo: nat, hi: nat): seq<Scored>
  {
    Slice(RankRow(row), lo, hi)
  }

  /** The entries of `s` ranked ahead of `e`, in their order in `s`. */
  function AheadOf(s: seq<Scored>, e: Scored): seq<Scored>
  {
    if s == [] then []
    else (if Ahead(s[0], e) then [s[0]] else []) + AheadOf(s[1..], e)
  }

  /** The entries of `s` not ranked ahead of `e` (`e` itself among them), in their order in `s`. */
  function NotAheadOf(s: seq<Scored>, e: Scored): seq<Scored>
  {
    if s == [] then []
    else (if Ahead(s[0], e) then [] else [s[0]]) + NotAheadOf(s[1..], e)
  }

  lemma {:induction false} InsertAheadRanked(p: Scored, s: seq<Scored>)
    requires Ranked(s)
    requires forall q :: q in s ==> p.index < q.index
    ensures Ranked(InsertAhead(p, s))
  {
    if s == [] || s[0].score <= p.score {
      var r := [p] + s;
      forall i, j | 0 <= i < j < |r|
        ensures Ahead(r[i], r[j])
      {
        if i == 0 {
          assert r[j] == s[j - 1] && r[j] in s;
          if j > 1 {
            assert Ahead(s[0], s[j - 1]);
          }
        } else {
          assert r[i] == s[i - 1] && r[j] == s[j - 1];
        }
      }
    } else {
      var t := InsertAhead(p, s[1..]);
      assert Ranked(s[1..]) by {
        forall i, j | 0 <= i < j < |s[1..]|
          ensures Ahead(s[1..][i], s[1..][j])
        {
          assert s[1..][i] == s[i + 1] && s[1..][j] == s[j + 1];
        }
      }
      InsertAheadRanked(p, s[1..]);
      var r := [s[0]] + t;
      forall i, j | 0 <= i < j < |r|
        ensures Ahead(r[i], r[j])
      {
        if i == 0 {
          var x := t[j - 1];
          assert x in multiset(t);
          if x != p {
            assert x in multiset(s[1..]);
            var m :| 0 <= m < |s[1..]| && s[1..][m] == x;
            assert s[m + 1] == x;
          }
        } else {
          assert r[i] == t[i - 1] && r[j] == t[j - 1];
        }
      }
    }
  }

  /** On input whose positions increase, the stable sort orders by score and then by position. */
  lemma {:induction false} SortDescRanked(s: seq<Scored>)
    requires IndexIncreasing(s)
    ensures Ranked(SortDesc(s))
  {
    if s != [] {
      assert IndexIncreasing(s[1..]) by {
        forall i, j | 0 <= i < j < |s[1..]|
          ensures s[1..][i].index < s[1..][j].index
        {
          assert s[1..][i] == s[i + 1] && s[1..][j] == s[j + 1];
        }
      }
      SortDescRanked(s[1..]);
      var t := SortDesc(s[1..]);
      forall q | q in t
        ensures s[0].index < q.index
      {
        assert q in multiset(s[1..]);
        var m :| 0 <= m < |s[1..]| && s[1..][m] == q;
        assert s[m + 1] == q;
      }
      InsertAheadRanked(s[0], t);
    }
  }

  lemma RankedTail(s: seq<Scored>)
    requires Ranked(s) && s != []
    ensures Ranked(s[1..])
  {
    forall i, j | 0 <= i < j < |s[1..]|
      ensures Ahead(s[1..][i], s[1..][j])
    {
      assert s[1..][i] == s[i + 1] && s[1..][j] == s[j + 1];
    }
  }

  /** The first entry of a ranked sequence is the one entry ahead of all the others. */
  lemma RankedHead(a: seq<Scored>, b: seq<Scored>)
    requires multiset(a) == multiset(b)
    requires Ranked(a) && Ranked(b) && a != []
    ensures b != [] && a[0] == b[0]
  {
    assert |a| == |multiset(a)| == |multiset(b)| == |b|;
    // a[0] is in b, and no later entry of b can be it: that entry would be behind b[0],
    // which is itself an entry of a and so not ahead of a[0]
    assert b[0] in multiset(a);
    var i :| 0 <= i < |a| && a[i] == b[0];
    forall k | 0 < k < |b|
      ensures b[k] != a[0]
    {
      assert Ahead(b[0], b[k]);
      if i > 0 {
        assert Ahead(a[0], a[i]);
      }
    }
    assert a[0] in multiset(b);
  }

  /** Two ranked arrangements of the same entries are the same sequence. */
  lemma {:induction false} RankedUnique(a: seq<Scored>, b: seq<Scored>)
    requires multiset(a) == multiset(b)
    requires Ranked(a) && Ranked(b)
    ensures a == b
  {
    assert |a| == |multiset(a)| == |multiset(b)| == |b|;
    if a != [] {
      RankedHead(a, b);
      assert a == [a[0]] + a[1..] && b == [b[0]] + b[1..];
      assert multiset(a[1..]) == multiset(a) - multiset{a[0]};
      assert multiset(b[1..]) == multiset(b) - multiset{b[0]};
      RankedTail(a);
      RankedTail(b);
      RankedUnique(a[1..], b[1..]);
    }
  }

  /**
   * The ranking holds every row position exactly once, with its score, ordered by score
   * and then by position; it is the only arrangement of the row's entries with that order,
   * so any stable descending sort of `enumerate(row)` produces it.
   */
  lemma RankRowIsRanking(row: seq<real>)
    ensures multiset(RankRow(row)) == multiset(Enumerate(row))
    ensures |RankRow(row)| == |row|
    ensures Ranked(RankRow(row))
    ensures forall c :: c in RankRow(row) <==> c.index < |row| && c.score == row[c.index]
    ensures forall s :: multiset(s) == multiset(Enumerate(row)) && Ranked(s) ==> s == RankRow(row)
  {
    var e := Enumerate(row);
    assert IndexIncreasing(e);
    SortDescRanked(e);
    assert |RankRow(row)| == |multiset(RankRow(row))| == |multiset(e)| == |row|;
    forall c
      ensures c in RankRow(row) <==> c.index < |row| && c.score == row[c.index]
    {
      assert c in RankRow(row) <==> c in multiset(e);
      if c.index < |row| && c.score == row[c.index] {
        assert e[c.index] == c;
      }
    }
    forall s | multiset(s) == multiset(e) && Ranked(s)
      ensures s == RankRow(row)
    {
      RankedUnique(s, RankRow(row));
    }
  }

  /**
   * A window that starts at ranked position `lo >= 1` is ranked, has the clamped length of
   * the slice, holds row entries only, and never holds the entry at ranked position 0.
   */
  lemma WindowFacts(row: seq<real>, lo: nat, hi: nat)
    requires 1 <= lo
    ensures |Window(row, lo, hi)| == if lo < hi && lo < |row| then Min(hi, |row|) - lo else 0
    ensures |Window(row, lo, hi)| <= if lo <= hi then hi - lo else 0
    ensures Ranked(Window(row, lo, hi))
    ensures forall k :: 0 <= k < |Window(row, lo, hi)| ==>
      Window(row, lo, hi)[k] == RankRow(row)[lo + k]
    ensures forall c :: c in Window(row, lo, hi) ==> c.index < |row| && c.score == row[c.index]
    ensures |row| > 0 ==> RankRow(row)[0] !in Window(row, lo, hi)
  {
    RankRowIsRanking(row);
    var r, w := RankRow(row), Window(row, lo, hi);
    forall i, j | 0 <= i < j < |w|
      ensures Ahead(w[i], w[j])
    {
      assert w[i] == r[lo + i] && w[j] == r[lo + j];
    }
    forall c | c in w
      ensures c.index < |row| && c.score == row[c.index]
    {
      var k :| 0 <= k < |w| && w[k] == c;
      assert r[lo + k] in r;
    }
    forall k | 0 <= k < |w|
      ensures w[k] != r[0]
    {
      assert Ahead(r[0], r[lo + k]);
    }
  }

  /**
   * When the query's own score is the row maximum and no earlier position ties it (as the
   * self-similarity 1 on the diagonal is, unless an earlier item's count vector points the
   * same way), the query sits at ranked position 0 and so is never in a window starting at
   * position 1.
   */
  lemma QueryExcluded(row: seq<real>, q: nat, hi: nat)
    requires q < |row|
    requires forall j :: 0 <= j < |row| ==> row[j] <= row[q]
    requires forall j :: 0 <= j < q ==> row[j] < row[q]
    ensures RankRow(row)[0] == Scored(q, row[q])
    ensures forall c :: c in Window(row, 1, hi) ==> c.index != q
  {
    RankRowIsRanking(row);
    WindowFacts(row, 1, hi);
    var r, e := RankRow(row), Scored(q, row[q]);
    assert r[0] in r;
    forall k | 0 < k < |r|
      ensures r[k] != e
    {
      assert Ahead(r[0], r[k]);
    }
    assert e in r;
  }

  /** The split around `e` sorts each entry of `s` by whether it is ranked ahead of `e`. */
  lemma {:induction false} AheadMembers(s: seq<Scored>, e: Scored)
    ensures forall c :: c in AheadOf(s, e) <==> c in s && Ahead(c, e)
    ensures forall c :: c in NotAheadOf(s, e) <==> c in s && !Ahead(c, e)
  {
    if s != [] {
      AheadMembers(s[1..], e);
      assert s == [s[0]] + s[1..];
    }
  }

  /** Splitting `s` around `e` loses and adds no entry. */
  lemma {:induction false} AheadSplit(s: seq<Scored>, e: Scored)
    ensures multiset(s) == multiset(AheadOf(s, e)) + multiset(NotAheadOf(s, e))
  {
    if s != [] {
      AheadSplit(s[1..], e);
      assert s == [s[0]] + s[1..];
    }
  }

  lemma IncreasingTail(s: seq<Scored>)
    requires IndexIncreasing(s) && s != []
    ensures IndexIncreasing(s[1..])
    ensures forall c :: c in s[1..] ==> s[0].index < c.index
  {
    var t := s[1..];
    forall i, j | 0 <= i < j < |t|
      ensures t[i].index < t[j].index
    {
      assert t[i] == s[i + 1] && t[j] == s[j + 1];
    }
    forall c | c in t
      ensures s[0].index < c.index
    {
      var m :| 0 <= m < |t| && t[m] == c;
      assert s[m + 1] == c;
    }
  }

  lemma IncreasingCons(x: Scored, a: seq<Scored>)
    requires IndexIncreasing(a)
    requires forall c :: c in a ==> x.index < c.index
    ensures IndexIncreasing([x] + a)
  {
    var r := [x] + a;
    forall i, j | 0 <= i < j < |r|
      ensures r[i].index < r[j].index
    {
      assert r[j] == a[j - 1] && r[j] in a;
      if i > 0 {
        assert r[i] == a[i - 1];
      }
    }
  }

  /** Both parts of the split keep the increasing positions of `s`. */
  lemma {:induction false} AheadIncreasing(s: seq<Scored>, e: Scored)
    requires IndexIncreasing(s)
    ensures IndexIncreasing(AheadOf(s, e)) && IndexIncreasing(NotAheadOf(s, e))
  {
    if s != [] {
      var t := s[1..];
      IncreasingTail(s);
      AheadIncreasing(t, e);
      AheadMembers(t, e);
      if Ahead(s[0], e) {
        IncreasingCons(s[0], AheadOf(t, e));
      } else {
        IncreasingCons(s[0], NotAheadOf(t, e));
      }
    }
  }

  /** An entry ahead of `e` is ahead of every entry that is not. */
  lemma AheadAcross(a: Scored, b: Scored, e: Scored)
    requires Ahead(a, e) && !Ahead(b, e)
    ensures Ahead(a, b)
  {
  }

  /** Entries ranked ahead of `e`, followed by entries that are not, stay ranked. */
  lemma RankedAcross(sa: seq<Scored>, sb: seq<Scored>, e: Scored)
    requires Ranked(sa) && Ranked(sb)
    requires forall c :: c in sa ==> Ahead(c, e)
    requires forall c :: c in sb ==> !Ahead(c, e)
    ensures Ranked(sa + sb)
  {
    var w := sa + sb;
    forall i, j | 0 <= i < j < |w|
      ensures Ahead(w[i], w[j])
    {
      if j < |sa| {
        assert w[i] == sa[i] && w[j] == sa[j];
      } else if i >= |sa| {
        assert w[i] == sb[i - |sa|] && w[j] == sb[j - |sa|];
      } else {
        assert w[i] == sa[i] && w[j] == sb[j - |sa|];
        AheadAcross(w[i], w[j], e);
      }
    }
  }

  /** In a ranked sequence of entries none of which is ahead of `e`, `e` comes first. */
  lemma RankedFirst(sb: seq<Scored>, e: Scored)
    requires Ranked(sb) && e in sb
    requires forall c :: c in sb ==> !Ahead(c, e)
    ensures sb[0] == e
  {
    assert sb[0] in sb;
    forall k | 0 < k < |sb|
      ensures sb[k] != e
    {
      assert Ahead(sb[0], sb[k]);
    }
  }

  /** Sorting the entries ahead of `e` and the rest separately, then joining, ranks `s`. */
  lemma SplitRanked(s: seq<Scored>, e: Scored)
    requires IndexIncreasing(s)
    ensures Ranked(SortDesc(AheadOf(s, e)) + SortDesc(NotAheadOf(s, e)))
    ensures multiset(SortDesc(AheadOf(s, e)) + SortDesc(NotAheadOf(s, e))) == multiset(s)
  {
    var a, b := AheadOf(s, e), NotAheadOf(s, e);
    AheadSplit(s, e);
    AheadIncreasing(s, e);
    AheadMembers(s, e);
    SortDescRanked(a);
    SortDescRanked(b);
    var sa, sb := SortDesc(a), SortDesc(b);
    assert forall c :: c in sa ==> c in multiset(a);
    assert forall c :: c in sb ==> c in multiset(b);
    RankedAcross(sa, sb, e);
  }

  /** Among the entries not ahead of `e`, sorted, `e` itself comes first. */
  lemma SplitHead(s: seq<Scored>, e: Scored)
    requires IndexIncreasing(s) && e in s
    ensures SortDesc(NotAheadOf(s, e)) != []
    ensures SortDesc(NotAheadOf(s, e))[0] == e
  {
    var b := NotAheadOf(s, e);
    AheadMembers(s, e);
    AheadIncreasing(s, e);
    SortDescRanked(b);
    var sb := SortDesc(b);
    assert e in multiset(b);
    assert forall c :: c in sb ==> c in multiset(b);
    RankedFirst(sb, e);
  }

  /**
   * The ranked position of row entry `q` is the number of row entries ranked ahead of it:
   * the ranking is those entries, then entry `q`, then the rest.
   */
  lemma RankPosition(row: seq<real>, q: nat)
    requires q < |row|
    ensures |AheadOf(Enumerate(row), Scored(q, row[q]))| < |row|
    ensures RankRow(row)[|AheadOf(Enumerate(row), Scored(q, row[q]))|] == Scored(q, row[q])
  {
    var e, en := Scored(q, row[q]), Enumerate(row);
    var sa, sb := SortDesc(AheadOf(en, e)), SortDesc(NotAheadOf(en, e));
    assert IndexIncreasing(en);
    assert en[q] == e;
    SortDescRanked(en);
    SplitRanked(en, e);
    SplitHead(en, e);
    RankedUnique(sa + sb, RankRow(row));
    assert (sa + sb)[|sa|] == sb[0];
  }

  /**
   * Where the query lands when its own score is the row maximum, as the self-similarity on
   * the diagonal is: the entries ahead of it are exactly the earlier positions that tie its
   * score, and if there are `t` of them the query sits at ranked position `t`. So it is
   * ranked first exactly when no earlier position ties it, and a window `[1:hi]` holds it
   * exactly when `0 < t < hi`: position 0 of the ranking is dropped, not the query.
   */
  lemma QueryRank(row: seq<real>, q: nat, hi: nat)
    requires q < |row|
    requires forall j :: 0 <= j < |row| ==> row[j] <= row[q]
    ensures forall c :: c in AheadOf(Enumerate(row), Scored(q, row[q])) <==>
      c.index < q && c.score == row[c.index] == row[q]
    ensures var t := |AheadOf(Enumerate(row), Scored(q, row[q]))|;
      && t < |row|
      && RankRow(row)[t] == Scored(q, row[q])
      && (RankRow(row)[0].index == q <==> t == 0)
      && (Scored(q, row[q]) in Window(row, 1, hi) <==> 0 < t < hi)
  {
    var e, en := Scored(q, row[q]), Enumerate(row);
    var t := |AheadOf(en, e)|;
    AheadMembers(en, e);
    forall c
      ensures c in AheadOf(en, e) <==> c.index < q && c.score == row[c.index] == row[q]
    {
      if c.index < q && c.score == row[c.index] == row[q] {
        assert en[c.index] == c;
      }
    }
    RankPosition(row, q);
    RankRowIsRanking(row);
    var r := RankRow(row);
    forall i | 0 <= i < |r| && i != t
      ensures r[i] != e
    {
      if i < t {
        assert Ahead(r[i], r[t]);
      } else {
        assert Ahead(r[t], r[i]);
      }
    }
    assert r[0] in r;
    assert t > 0 ==> Ahead(r[0], r[t]);
    var w := Window(row, 1, hi);
    if 0 < t < hi {
      assert w[t - 1] == e;
    }
    forall k | 0 <= k < |w|
      ensures w[k] == e ==> 1 + k == t && t < hi
    {
      assert w[k] == r[1 + k];
    }
  }
}
