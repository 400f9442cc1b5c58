/** Document-level ranking metrics of the benchmark (scripts/bench/run_bench.py). */
module RankMetrics {
  import opened Common

  /** The discount of each 1-based rank, 1/log2(rank + 1) in the source: any positive, strictly
      decreasing weights with the first equal to 1. */
  ghost predicate Discount(w: nat -> real) {
    w(1) == 1.0 && (forall i: nat | i >= 1 :: w(i) > 0.0) && (forall i: nat | i >= 1 :: w(i + 1) < w(i))
  }

  function Top<D>(ranked: seq<D>, k: nat): seq<D> {
    if |ranked| <= k then ranked else ranked[..k]
  }

  function Least(a: nat, b: nat): nat {
    if a < b then a else b
  }

  /** Sum of the discounts of the gold documents of a list. */
  function Dcg<D(==)>(w: nat -> real, gold: set<D>, list: seq<D>): real {
    if list == [] then 0.0
    else Dcg(w, gold, list[..|list| - 1]) + if list[|list| - 1] in gold then w(|list|) else 0.0
  }

  /** Sum of the first `n` discounts. */
  function Ideal(w: nat -> real, n: nat): real {
    if n == 0 then 0.0 else Ideal(w, n - 1) + w(n)
  }

  function IdealDcg<D>(w: nat -> real, gold: set<D>): real {
    Ideal(w, Least(|gold|, 10))
  }

  function SetOf<D(==)>(list: seq<D>): set<D> {
    set d | d in list
  }

  function Recall<D(==)>(gold: set<D>, ranked: seq<D>, k: nat): real
    requires gold != {}
  {
    |gold * SetOf(Top(ranked, k))| as real / |gold| as real
  }

  /** 1-based rank of the first gold document, 0 when there is none. */
  function FirstHit<D(==)>(gold: set<D>, list: seq<D>): (r: nat)
    ensures r <= |list|
    ensures r > 0 ==> list[r - 1] in gold && forall i | 0 <= i < r - 1 :: list[i] !in gold
    ensures r == 0 <==> forall i | 0 <= i < |list| :: list[i] !in gold
  {
    if list == [] then 0
    else
      var r := FirstHit(gold, list[..|list| - 1]);
      if r > 0 then r else if list[|list| - 1] in gold then |list| else 0
  }

  function Mrr<D(==)>(gold: set<D>, ranked: seq<D>): real {
    var r := FirstHit(gold, Top(ranked, 10));
    if r == 0 then 0.0 else 1.0 / r as real
  }

  function Ndcg<D(==)>(w: nat -> real, gold: set<D>, ranked: seq<D>): real {
    var ideal := IdealDcg(w, gold);
    if ideal == 0.0 then 0.0 else Dcg(w, gold, Top(ranked, 10)) / ideal
  }

  datatype Metrics = Metrics(recall5: real, recall10: real, mrr: real, ndcg: real)

  function RankMetricsOf<D(==)>(w: nat -> real, gold: set<D>, ranked: seq<D>): Option<Metrics> {
    if gold == {} then None
    else Some(Metrics(Recall(gold, ranked, 5), Recall(gold, ranked, 10), Mrr(gold, ranked), Ndcg(w, gold, ranked)))
  }

  // ----- The loops of rank_metrics -----

  method RankMetricsLoop<D(==)>(w: nat -> real, gold: set<D>, ranked: seq<D>) returns (m: Option<Metrics>)
    ensures m == RankMetricsOf(w, gold, ranked)
  {
    if gold == {} { return None; }
    var top := Top(ranked, 10);
    var mrr := 0.0;
    var i := 0;
    while i < |top|
      invariant 0 <= i <= |top| && mrr == 0.0
      invariant forall k | 0 <= k < i :: top[k] !in gold
    {
      i := i + 1;
      if top[i - 1] in gold {
        mrr := 1.0 / i as real;
        break;
      }
    }
    assert mrr == Mrr(gold, ranked);
    var dcg := DcgLoop(w, gold, top);
    var ideal := IdealLoop(w, Least(|gold|, 10));
    var ndcg := if ideal == 0.0 then 0.0 else dcg / ideal;
    m := Some(Metrics(Recall(gold, ranked, 5), Recall(gold, ranked, 10), mrr, ndcg));
  }

  method DcgLoop<D(==)>(w: nat -> real, gold: set<D>, top: seq<D>) returns (dcg: real)
    ensures dcg == Dcg(w, gold, top)
  {
    dcg := 0.0;
    for k := 0 to |top|
      invariant dcg == Dcg(w, gold, top[..k])
    {
      assert top[..k + 1][..k] == top[..k];
      if top[k] in gold { dcg := dcg + w(k + 1); }
    }
    assert top[..|top|] == top;
  }

  method IdealLoop(w: nat -> real, n: nat) returns (ideal: real)
    ensures ideal == Ideal(w, n)
  {
    ideal := 0.0;
    for k := 0 to n
      invariant ideal == Ideal(w, k)
    {
      ideal := ideal + w(k + 1);
    }
  }

  // ----- DCG against the ideal -----

  ghost predicate Distinct<D>(list: seq<D>) {
    forall i, j | 0 <= i < j < |list| :: list[i] != list[j]
  }

  function Hits<D(==)>(gold: set<D>, list: seq<D>): nat {
    if list == [] then 0
    else Hits(gold, list[..|list| - 1]) + if list[|list| - 1] in gold then 1 else 0
  }

  lemma SetOfLast<D>(list: seq<D>)
    requires list != []
    ensures SetOf(list) == SetOf(list[..|list| - 1]) + {list[|list| - 1]}
  {
    assert list == list[..|list| - 1] + [list[|list| - 1]];
  }

  lemma AddedHit<D>(gold: set<D>, part: set<D>, d: D)
    requires d !in part
    ensures |gold * (part + {d})| == |gold * part| + if d in gold then 1 else 0
  {
    if d in gold {
      assert gold * (part + {d}) == gold * part + {d};
    } else {
      assert gold * (part + {d}) == gold * part;
    }
  }

  lemma {:induction false} HitsOfDistinct<D>(gold: set<D>, list: seq<D>)
    requires Distinct(list)
    ensures Hits(gold, list) == |gold * SetOf(list)|
  {
    if list != [] {
      var front, last := list[..|list| - 1], list[|list| - 1];
      HitsOfDistinct(gold, front);
      SetOfLast(list);
      assert last !in SetOf(front);
      AddedHit(gold, SetOf(front), last);
    } else {
      assert gold * SetOf(list) == {};
    }
  }

  lemma PartSize<D>(gold: set<D>, part: set<D>)
    ensures |gold * part| <= |gold|
    ensures |gold * part| == |gold| ==> gold <= part
  {
    assert gold == gold * part + (gold - part);
    assert |gold| == |gold * part| + |gold - part|;
  }

  lemma {:induction false} WeightsDecrease(w: nat -> real, i: nat, j: nat)
    requires Discount(w) && 1 <= i <= j
    ensures w(j) <= w(i) && (i < j ==> w(j) < w(i))
    decreases j
  {
    if i < j {
      WeightsDecrease(w, i, j - 1);
      assert w(j - 1 + 1) < w(j - 1);
    }
  }

  lemma {:induction false} IdealGrows(w: nat -> real, m: nat, n: nat)
    requires Discount(w) && m <= n
    ensures 0.0 <= Ideal(w, m) <= Ideal(w, n)
    ensures m < n ==> Ideal(w, m) < Ideal(w, n)
  {
    if n > 0 {
      if m < n { IdealGrows(w, m, n - 1); } else { IdealGrows(w, m - 1, n - 1); }
    }
  }

  ghost predicate GoldFirst<D>(gold: set<D>, list: seq<D>, n: nat) {
    n <= |list| && forall i | 0 <= i < n :: list[i] in gold
  }

  lemma {:induction false} HitsBound<D>(gold: set<D>, list: seq<D>)
    ensures Hits(gold, list) <= |list|
    ensures Hits(gold, list) == |list| ==> GoldFirst(gold, list, |list|)
  {
    if list != [] { HitsBound(gold, list[..|list| - 1]); }
  }

  /** The hits are worth at most as much as the same number of top ranks, and as much only when they
      are the top ranks. */
  lemma {:induction false} DcgAtMostIdeal<D>(w: nat -> real, gold: set<D>, list: seq<D>)
    requires Discount(w)
    ensures 0.0 <= Dcg(w, gold, list) <= Ideal(w, Hits(gold, list))
    ensures Dcg(w, gold, list) == Ideal(w, Hits(gold, list)) <==> GoldFirst(gold, list, Hits(gold, list))
  {
    if list != [] {
      var front := list[..|list| - 1];
      DcgAtMostIdeal(w, gold, front);
      HitsBound(gold, front);
      var h := Hits(gold, front);
      assert forall i | 0 <= i < |front| :: front[i] == list[i];
      if list[|list| - 1] in gold {
        WeightsDecrease(w, h + 1, |list|);
        if GoldFirst(gold, list, h + 1) {
          if h < |front| { HitsAtLeast(gold, front, h + 1); }
          assert |list| == h + 1;
        }
      }
    }
  }

  lemma {:induction false} HitsAtLeast<D>(gold: set<D>, list: seq<D>, n: nat)
    requires GoldFirst(gold, list, n)
    ensures Hits(gold, list) >= n
  {
    if list != [] {
      HitsAtLeast(gold, list[..|list| - 1], if n == |list| then n - 1 else n);
    }
  }

  lemma DistinctTop<D>(ranked: seq<D>, k: nat)
    requires Distinct(ranked)
    ensures Distinct(Top(ranked, k))
  {
  }

  /** For a ranking without duplicates nDCG@10 lies between 0 and 1, and it is 1 exactly when the
      first min(|gold|, 10) results are all gold. */
  lemma NdcgInUnitInterval<D>(w: nat -> real, gold: set<D>, ranked: seq<D>)
    requires Discount(w) && gold != {} && Distinct(ranked)
    ensures 0.0 <= Dcg(w, gold, Top(ranked, 10)) <= IdealDcg(w, gold)
    ensures 0.0 <= Ndcg(w, gold, ranked) <= 1.0
    ensures Ndcg(w, gold, ranked) == 1.0 <==> GoldFirst(gold, ranked, Least(|gold|, 10))
  {
    hide Hits, Dcg, Ideal, SetOf, Discount, GoldFirst;
    var top := Top(ranked, 10);
    var h, n := Hits(gold, top), Least(|gold|, 10);
    HitsOfTop(gold, ranked);
    DcgAtMostIdeal(w, gold, top);
    IdealGrows(w, h, n);
    IdealGrows(w, 0, n);
    Quotient(Dcg(w, gold, top), Ideal(w, n));
  }

  /** The hits among the first ten of a ranking without duplicates: at most min(|gold|, 10), and as many
      only when the ranking starts with gold. */
  lemma HitsOfTop<D>(gold: set<D>, ranked: seq<D>)
    requires Distinct(ranked) && gold != {}
    ensures var n, h := Least(|gold|, 10), Hits(gold, Top(ranked, 10));
      && 0 < n && h <= n
      && (GoldFirst(gold, ranked, n) <==> h == n && GoldFirst(gold, Top(ranked, 10), h))
  {
    var top, n := Top(ranked, 10), Least(|gold|, 10);
    DistinctTop(ranked, 10);
    HitsOfDistinct(gold, top);
    PartSize(gold, SetOf(top));
    GoldFirstOfTop(gold, ranked, n);
    hide Hits, SetOf, Distinct, GoldFirst;
    HitsBound(gold, top);
    if GoldFirst(gold, ranked, n) { HitsAtLeast(gold, top, n); }
  }

  lemma GoldFirstOfTop<D>(gold: set<D>, ranked: seq<D>, n: nat)
    requires n <= 10
    ensures GoldFirst(gold, ranked, n) <==> GoldFirst(gold, Top(ranked, 10), n)
  {
    var top := Top(ranked, 10);
    assert forall i | 0 <= i < |top| :: ranked[i] == top[i];
  }

  lemma Quotient(a: real, b: real)
    requires 0.0 <= a <= b && b > 0.0
    ensures 0.0 <= a / b <= 1.0 && (a / b == 1.0 <==> a == b)
  {
    assert a == (a / b) * b;
  }

  /** A ranking keeps DCG within the ideal for every gold set exactly when its top ten results are
      distinct. */
  lemma DistinctExactly<D(!new)>(w: nat -> real, ranked: seq<D>)
    requires Discount(w)
    ensures Distinct(Top(ranked, 10)) <==>
            forall gold: set<D> | gold != {} :: Dcg(w, gold, Top(ranked, 10)) <= IdealDcg(w, gold)
  {
    var top := Top(ranked, 10);
    if Distinct(top) {
      forall gold: set<D> | gold != {} ensures Dcg(w, gold, top) <= IdealDcg(w, gold) {
        NdcgInUnitInterval(w, gold, top);
      }
    } else {
      RepeatedBeatsIdeal(w, top);
    }
  }

  /** With a repeated result, the gold set of everything listed beats the ideal. */
  lemma RepeatedBeatsIdeal<D>(w: nat -> real, top: seq<D>)
    requires Discount(w) && !Distinct(top) && |top| <= 10
    ensures SetOf(top) != {} && Dcg(w, SetOf(top), top) > IdealDcg(w, SetOf(top))
  {
    var gold := SetOf(top);
    AllGold(w, gold, top);
    RepeatedIsSmaller(top);
    IdealGrows(w, |gold|, |top|);
    assert top[0] in gold;
  }

  lemma {:induction false} AllGold<D>(w: nat -> real, gold: set<D>, list: seq<D>)
    requires forall d | d in list :: d in gold
    ensures Dcg(w, gold, list) == Ideal(w, |list|)
  {
    if list != [] {
      AllGold(w, gold, list[..|list| - 1]);
      assert list[|list| - 1] in list;
    }
  }

  lemma {:induction false} SetOfSize<D>(list: seq<D>)
    ensures |SetOf(list)| <= |list|
  {
    if list != [] {
      SetOfLast(list);
      SetOfSize(list[..|list| - 1]);
    }
  }

  lemma {:induction false} RepeatedIsSmaller<D>(list: seq<D>)
    requires !Distinct(list)
    ensures |SetOf(list)| < |list|
  {
    var front, last := list[..|list| - 1], list[|list| - 1];
    SetOfLast(list);
    SetOfSize(front);
    if last in front {
      assert SetOf(list) == SetOf(front);
    } else {
      RepeatedIsSmaller(front);
    }
  }

  /** recall@5 is at most recall@10, which is at most 1; and MRR is positive exactly when recall@10
      is. */
  lemma RecallAndMrr<D>(gold: set<D>, ranked: seq<D>)
    requires gold != {}
    ensures 0.0 <= Recall(gold, ranked, 5) <= Recall(gold, ranked, 10) <= 1.0
    ensures 0.0 <= Mrr(gold, ranked) <= 1.0
    ensures Mrr(gold, ranked) > 0.0 <==> Recall(gold, ranked, 10) > 0.0
  {
    TopsNest(ranked);
    TopSizes(gold, ranked);
    MrrPositive(gold, ranked);
    hide SetOf, Top;
    Shares(|gold * SetOf(Top(ranked, 5))|, |gold * SetOf(Top(ranked, 10))|, |gold|);
  }

  lemma TopsNest<D>(ranked: seq<D>)
    ensures SetOf(Top(ranked, 5)) <= SetOf(Top(ranked, 10))
  {
    var five, ten := Top(ranked, 5), Top(ranked, 10);
    assert five <= ten;
    assert forall i | 0 <= i < |five| :: five[i] == ten[i];
  }

  lemma TopSizes<D>(gold: set<D>, ranked: seq<D>)
    ensures |gold * SetOf(Top(ranked, 5))| <= |gold * SetOf(Top(ranked, 10))| <= |gold|
  {
    TopsNest(ranked);
    hide SetOf, Top;
    var a, b := gold * SetOf(Top(ranked, 5)), gold * SetOf(Top(ranked, 10));
    assert b == a + (b - a);
    PartSize(gold, SetOf(Top(ranked, 10)));
  }

  lemma MrrPositive<D>(gold: set<D>, ranked: seq<D>)
    ensures 0.0 <= Mrr(gold, ranked) <= 1.0
    ensures Mrr(gold, ranked) > 0.0 <==> |gold * SetOf(Top(ranked, 10))| > 0
  {
    var ten := Top(ranked, 10);
    var r := FirstHit(gold, ten);
    if r > 0 {
      assert ten[r - 1] in gold * SetOf(ten);
      Quotient(1.0, r as real);
    } else {
      assert gold * SetOf(ten) == {};
    }
  }

  lemma ShareOrder(a: real, b: real, n: real)
    requires 0.0 <= a <= b && n > 0.0
    ensures 0.0 <= a / n <= b / n
    ensures b / n > 0.0 <==> b > 0.0
  {
    var x, y := a / n, b / n;
    assert x * n == a && y * n == b;
    Scaled(x, y, n);
    Scaled(0.0, x, n);
    Scaled(0.0, y, n);
  }

  lemma Scaled(x: real, y: real, n: real)
    requires n > 0.0
    ensures x < y <==> x * n < y * n
  {
    assert (y - x) * n == y * n - x * n;
  }

  lemma Shares(a: nat, b: nat, n: nat)
    requires a <= b <= n && n > 0
    ensures 0.0 <= a as real / n as real <= b as real / n as real <= 1.0
    ensures b as real / n as real > 0.0 <==> b > 0
  {
    ShareOrder(a as real, b as real, n as real);
    ShareOrder(b as real, n as real, n as real);
  }

  // ----- The metrics, rank by rank -----

  /** The sum of the discounts of those of the first `n` ranks that are in a set. */
  ghost function Earned(w: nat -> real, ranks: iset<nat>, n: nat): real {
    if n == 0 then 0.0 else Earned(w, ranks, n - 1) + if n in ranks then w(n) else 0.0
  }

  ghost predicate HoldsGold<D>(gold: set<D>, ranked: seq<D>, rank: nat) {
    1 <= rank <= |ranked| && ranked[rank - 1] in gold
  }

  ghost function GoldRanks<D>(gold: set<D>, ranked: seq<D>): iset<nat> {
    iset rank | HoldsGold(gold, ranked, rank)
  }

  ghost predicate NoLater(rank: nat, last: nat) {
    rank <= last
  }

  ghost function FirstRanks(last: nat): iset<nat> {
    iset rank | NoLater(rank, last)
  }

  /** The documents among the first `k` results. */
  ghost function Among<D>(ranked: seq<D>, k: nat): iset<D> {
    iset i: nat | i < k && i < |ranked| :: ranked[i]
  }

  /** Without gold there are no metrics. Otherwise recall@5 and recall@10 are the shares of the gold
      documents among the first five and ten results; MRR is the inverse of the rank of the first gold
      document among ten, or 0; and nDCG compares, over ten ranks, the discounts of the ranks that hold
      gold with those of as many first ranks as there is gold. */
  lemma MetricsExactly<D>(w: nat -> real, gold: set<D>, ranked: seq<D>)
    requires Discount(w) && gold != {}
    ensures RankMetricsOf(w, {}, ranked) == None
    ensures var r := RankMetricsOf(w, gold, ranked);
            && r.Some?
            && IsShare(r.value.recall5, gold, Among(ranked, 5))
            && IsShare(r.value.recall10, gold, Among(ranked, 10))
            && IsReciprocalRank(r.value.mrr, gold, ranked)
            && IsRatio(r.value.ndcg, Earned(w, GoldRanks(gold, ranked), 10), Earned(w, FirstRanks(|gold|), 10))
  {
    MetricsAre(w, gold, ranked);
    hide *;
    RecallExactly(gold, ranked, 5);
    RecallExactly(gold, ranked, 10);
    MrrExactly(gold, ranked);
    NdcgExactly(w, gold, ranked);
  }

  ghost predicate IsShare<D>(share: real, gold: set<D>, results: iset<D>) {
    IsRatio(share, |set d | d in gold && d in results| as real, |gold| as real)
  }

  ghost predicate IsRatio(r: real, a: real, b: real) {
    b != 0.0 && r * b == a
  }

  ghost predicate IsReciprocalRank<D>(r: real, gold: set<D>, ranked: seq<D>) {
    if exists i: nat :: i < |ranked| && i < 10 && ranked[i] in gold
    then exists i: nat :: i < |ranked| && i < 10 && ranked[i] in gold && IsRatio(r, 1.0, (i + 1) as real)
                       && forall j: nat | j < i :: ranked[j] !in gold
    else r == 0.0
  }

  lemma MetricsAre<D>(w: nat -> real, gold: set<D>, ranked: seq<D>)
    requires gold != {}
    ensures RankMetricsOf(w, {}, ranked) == None
    ensures RankMetricsOf(w, gold, ranked)
         == Some(Metrics(Recall(gold, ranked, 5), Recall(gold, ranked, 10), Mrr(gold, ranked), Ndcg(w, gold, ranked)))
  {
  }

  lemma RecallExactly<D>(gold: set<D>, ranked: seq<D>, k: nat)
    requires gold != {}
    ensures IsShare(Recall(gold, ranked, k), gold, Among(ranked, k))
  {
    var top := Top(ranked, k);
    forall d ensures d in top <==> d in Among(ranked, k) {
      if d in top { var i: nat :| i < |top| && top[i] == d; assert ranked[i] == d; }
      if i: nat :| i < k && i < |ranked| && ranked[i] == d { assert top[i] == d; }
    }
    assert gold * SetOf(top) == set d | d in gold && d in Among(ranked, k);
    QuotientTimes(|gold * SetOf(top)| as real, |gold| as real);
  }

  lemma QuotientTimes(a: real, b: real)
    requires b != 0.0
    ensures IsRatio(a / b, a, b)
  {
  }

  lemma MrrExactly<D>(gold: set<D>, ranked: seq<D>)
    ensures IsReciprocalRank(Mrr(gold, ranked), gold, ranked)
  {
    hide IsRatio;
    var top := Top(ranked, 10);
    var r := FirstHit(gold, top);
    assert forall i | 0 <= i < |top| :: top[i] == ranked[i];
    if r > 0 {
      assert ranked[r - 1] in gold;
      QuotientTimes(1.0, r as real);
    } else {
      forall i: nat | i < |ranked| && i < 10 ensures ranked[i] !in gold { assert top[i] !in gold; }
    }
  }

  lemma NdcgExactly<D>(w: nat -> real, gold: set<D>, ranked: seq<D>)
    requires Discount(w) && gold != {}
    ensures IsRatio(Ndcg(w, gold, ranked), Earned(w, GoldRanks(gold, ranked), 10), Earned(w, FirstRanks(|gold|), 10))
  {
    hide Earned, Dcg, Ideal, Discount, IsRatio;
    var top := Top(ranked, 10);
    var hits := GoldRanks(gold, ranked);
    assert forall i | 0 <= i < |top| :: top[i] == ranked[i];
    EarnedIdeal(w, |gold|, 10);
    IdealGrows(w, 0, Least(|gold|, 10));
    EarnedDcg(w, gold, top, hits, 10);
    NdcgShare(w, gold, ranked);
    QuotientTimes(Dcg(w, gold, top), IdealDcg(w, gold));
  }

  lemma NdcgShare<D>(w: nat -> real, gold: set<D>, ranked: seq<D>)
    requires IdealDcg(w, gold) != 0.0
    ensures Ndcg(w, gold, ranked) == Dcg(w, gold, Top(ranked, 10)) / IdealDcg(w, gold)
  {
  }

  lemma {:induction false} EarnedIdeal(w: nat -> real, size: nat, n: nat)
    ensures Earned(w, FirstRanks(size), n) == Ideal(w, Least(size, n))
  {
    if n > 0 { EarnedIdeal(w, size, n - 1); }
  }

  lemma {:induction false} EarnedDcg<D>(w: nat -> real, gold: set<D>, list: seq<D>, hits: iset<nat>, n: nat)
    requires |list| <= n && forall i: nat | 1 <= i <= n :: i in hits <==> HoldsGold(gold, list, i)
    ensures Earned(w, hits, n) == Dcg(w, gold, list)
  {
    if n > 0 {
      var front := if |list| == n then list[..n - 1] else list;
      assert forall i | 0 <= i < |front| :: front[i] == list[i];
      EarnedDcg(w, gold, front, hits, n - 1);
    }
  }
}
