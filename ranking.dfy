/**
 * Prediction ranking of the serving endpoint: the predicted class is the
 * first index of the largest score; every class is listed with its score
 * as a percentage, in class order; that list is sorted by descending
 * confidence with a stable sort, and its first three entries are returned.
 */
module Ranking {
  import opened Wrappers

  /** The class labels, aligned with the positions of the model's output vector. */
  const ClassNames: seq<string> :=
    ["airplane", "automobile", "bird", "cat", "deer", "dog", "frog", "horse", "ship", "truck"]

  /** How many ranked entries a response carries. */
  const TopK: nat := 3

  /** One class with its confidence in percent. */
  datatype Entry = Entry(className: string, confidence: real)

  /** The answer to a successful prediction. */
  datatype Prediction = Prediction(className: string, confidence: real, top: seq<Entry>)

  /** `k` is the first position of a largest element of `s`. */
  predicate IsFirstMax(s: seq<real>, k: int)
  {
    && 0 <= k < |s|
    && (forall j :: 0 <= j < |s| ==> s[j] <= s[k])
    && (forall j :: 0 <= j < k ==> s[j] < s[k])
  }

  /** The index NumPy's argmax picks: the first position of the largest score. */
  function ArgMax(s: seq<real>): (k: nat)
    requires |s| > 0
    ensures IsFirstMax(s, k)
    ensures forall j :: IsFirstMax(s, j) ==> j == k
  {
    if |s| == 1 then 0
    else
      var k := ArgMax(s[..|s| - 1]);
      if s[|s| - 1] > s[k] then |s| - 1 else k
  }

  /** The first largest score of the first `n` scores is the first largest of all, when it lies there. */
  lemma ArgMaxOfPrefix(s: seq<real>, n: nat)
    requires 0 < n <= |s| && ArgMax(s) < n
    ensures ArgMax(s[..n]) == ArgMax(s)
  {
    assert IsFirstMax(s[..n], ArgMax(s));
  }

  /** Every class with its score as a percentage, in class order. */
  function Labelled(scores: seq<real>): (entries: seq<Entry>)
    requires |scores| == |ClassNames|
  {
    seq(|ClassNames|, i requires 0 <= i < |ClassNames| => Entry(ClassNames[i], scores[i] * 100.0))
  }

  /** Confidences never increase along `s`. */
  predicate NonIncreasing(s: seq<Entry>)
  {
    forall i, j :: 0 <= i < j < |s| ==> s[i].confidence >= s[j].confidence
  }

  /** `x` alone when its confidence is `c`, nothing otherwise. */
  function Keep(x: Entry, c: real): seq<Entry>
  {
    if x.confidence == c then [x] else []
  }

  /** The entries of `s` whose confidence is `c`, in their order in `s`. */
  function WithConfidence(s: seq<Entry>, c: real): seq<Entry>
  {
    if s == [] then [] else Keep(s[0], c) + WithConfidence(s[1..], c)
  }

  /** Unfolds `WithConfidence` over a list with `x` in front. */
  lemma WithConfidenceCons(x: Entry, s: seq<Entry>, c: real)
    ensures WithConfidence([x] + s, c) == Keep(x, c) + WithConfidence(s, c)
  {
    assert ([x] + s)[1..] == s;
  }

  /** No entry of `s` has a confidence above `x`'s. */
  predicate Dominates(x: Entry, s: seq<Entry>)
  {
    forall y :: y in s ==> y.confidence <= x.confidence
  }

  /** A non-increasing list with a dominating entry in front is non-increasing. */
  lemma PrependDominating(x: Entry, s: seq<Entry>)
    requires Dominates(x, s) && NonIncreasing(s)
    ensures NonIncreasing([x] + s)
  {
    forall i, j | 0 <= i < j < |[x] + s|
      ensures ([x] + s)[i].confidence >= ([x] + s)[j].confidence
    {
      if i > 0 {
        assert ([x] + s)[i] == s[i - 1] && ([x] + s)[j] == s[j - 1];
      } else {
        assert ([x] + s)[j] in s;
      }
    }
  }

  /**
   * Inserts `e` before the first entry whose confidence is not above its
   * own, so that `e` stays ahead of the entries of equal confidence.
   */
  function Insert(e: Entry, s: seq<Entry>): (r: seq<Entry>)
    ensures |r| == |s| + 1
    ensures multiset(r) == multiset(s) + multiset{e}
  {
    if s == [] || e.confidence >= s[0].confidence then [e] + s
    else
      assert s == [s[0]] + s[1..];
      [s[0]] + Insert(e, s[1..])
  }

  /** Inserting into a non-increasing list keeps it non-increasing. */
  lemma {:induction false} InsertKeepsOrder(e: Entry, s: seq<Entry>)
    requires NonIncreasing(s)
    ensures NonIncreasing(Insert(e, s))
  {
    if s == [] || e.confidence >= s[0].confidence {
      forall y | y in s ensures y.confidence <= e.confidence {
        var j :| 0 <= j < |s| && s[j] == y;
        assert s[0].confidence >= s[j].confidence;
      }
      PrependDominating(e, s);
    } else {
      var rest := Insert(e, s[1..]);
      InsertKeepsOrder(e, s[1..]);
      forall y | y in rest ensures y.confidence <= s[0].confidence {
        assert y in multiset(rest);
        if y != e {
          assert y in multiset(s[1..]);
          var j :| 0 <= j < |s[1..]| && s[1..][j] == y;
          assert s[0].confidence >= s[j + 1].confidence;
        }
      }
      PrependDominating(s[0], rest);
    }
  }

  /** Python's stable `sort(reverse=True)` by confidence, as an insertion sort. */
  function SortDescending(s: seq<Entry>): (r: seq<Entry>)
    ensures |r| == |s|
    ensures NonIncreasing(r)
    ensures multiset(r) == multiset(s)
  {
    if s == [] then []
    else
      assert s == [s[0]] + s[1..];
      var rest := SortDescending(s[1..]);
      InsertKeepsOrder(s[0], rest);
      Insert(s[0], rest)
  }

  /** Inserting keeps the order among entries of one confidence. */
  lemma {:induction false} InsertIsStable(e: Entry, s: seq<Entry>, c: real)
    ensures WithConfidence(Insert(e, s), c) == WithConfidence([e] + s, c)
  {
    if s != [] && e.confidence < s[0].confidence {
      var rest := s[1..];
      assert s == [s[0]] + rest;
      InsertIsStable(e, rest, c);
      WithConfidenceCons(s[0], Insert(e, rest), c);
      WithConfidenceCons(e, rest, c);
      WithConfidenceCons(s[0], rest, c);
      WithConfidenceCons(e, s, c);
      // `e` and `s[0]` differ in confidence, so at most one of them is kept
      assert Keep(s[0], c) + Keep(e, c) == Keep(e, c) + Keep(s[0], c);
    }
  }

  /** The sort is stable: entries of equal confidence keep their original order. */
  lemma {:induction false} SortIsStable(s: seq<Entry>, c: real)
    ensures WithConfidence(SortDescending(s), c) == WithConfidence(s, c)
  {
    if s != [] {
      var rest := SortDescending(s[1..]);
      InsertIsStable(s[0], rest, c);
      WithConfidenceCons(s[0], rest, c);
      SortIsStable(s[1..], c);
    }
  }

  /** The entries kept for confidence `c` are entries of `s` with that confidence. */
  lemma {:induction false} WithConfidenceMembers(s: seq<Entry>, c: real)
    ensures forall x :: x in WithConfidence(s, c) ==> x in s && x.confidence == c
  {
    if s != [] {
      WithConfidenceMembers(s[1..], c);
    }
  }

  /** A list's first entry is kept for its own confidence. */
  lemma HeadIsKept(s: seq<Entry>)
    requires s != []
    ensures WithConfidence(s, s[0].confidence) != []
  {
  }

  /**
   * Two non-increasing lists that agree, for every confidence, on the
   * entries of that confidence and their order are the same list.
   */
  lemma {:induction false} StableOrderIsUnique(t: seq<Entry>, u: seq<Entry>)
    requires NonIncreasing(t) && NonIncreasing(u)
    requires forall c :: WithConfidence(t, c) == WithConfidence(u, c)
    ensures t == u
    decreases |t| + |u|
  {
    if t == [] && u != [] {
      HeadIsKept(u);
    } else if t != [] && u == [] {
      HeadIsKept(t);
    } else if t != [] {
      var a, b := t[0].confidence, u[0].confidence;
      WithConfidenceMembers(u, a);
      WithConfidenceMembers(t, b);
      assert WithConfidence(u, a)[0] in u;
      assert WithConfidence(t, b)[0] in t;
      assert a == b;
      assert t[0] == WithConfidence(t, a)[0] == WithConfidence(u, a)[0] == u[0];
      forall c
        ensures WithConfidence(t[1..], c) == WithConfidence(u[1..], c)
      {
        var k := Keep(t[0], c);
        assert WithConfidence(t, c) == k + WithConfidence(t[1..], c);
        assert WithConfidence(u, c) == k + WithConfidence(u[1..], c);
        assert (k + WithConfidence(t[1..], c))[|k|..] == WithConfidence(t[1..], c);
        assert (k + WithConfidence(u[1..], c))[|k|..] == WithConfidence(u[1..], c);
      }
      StableOrderIsUnique(t[1..], u[1..]);
    }
  }

  /**
   * `SortDescending` is the stable descending sort: any non-increasing
   * list that keeps the order of the entries of each confidence equals it,
   * whatever algorithm produced it.
   */
  lemma SortDescendingIsTheStableSort(s: seq<Entry>, t: seq<Entry>)
    requires NonIncreasing(t)
    requires forall c :: WithConfidence(t, c) == WithConfidence(s, c)
    ensures t == SortDescending(s)
  {
    forall c
      ensures WithConfidence(t, c) == WithConfidence(SortDescending(s), c)
    {
      SortIsStable(s, c);
    }
    StableOrderIsUnique(t, SortDescending(s));
  }

  /** When no entry before `k` has confidence `c` and entry `k` has, entry `k` heads the entries of confidence `c`. */
  lemma {:induction false} FirstWithConfidence(s: seq<Entry>, c: real, k: nat)
    requires k < |s| && s[k].confidence == c
    requires forall j :: 0 <= j < k ==> s[j].confidence != c
    ensures WithConfidence(s, c) != [] && WithConfidence(s, c)[0] == s[k]
  {
    if k > 0 {
      FirstWithConfidence(s[1..], c, k - 1);
    }
  }

  /**
   * After the stable sort, the first entry is the class at the first
   * largest score: the sorted list and the argmax resolve ties alike.
   */
  lemma SortedHeadIsArgMax(scores: seq<real>)
    requires |scores| == |ClassNames|
    ensures SortDescending(Labelled(scores))[0] == Labelled(scores)[ArgMax(scores)]
  {
    var s := Labelled(scores);
    var r := SortDescending(s);
    var k := ArgMax(scores);
    var top := s[k].confidence;
    assert r[0] in multiset(s);
    assert r[0].confidence <= top;
    assert s[k] in multiset(r);
    assert r[0].confidence == top;
    FirstWithConfidence(r, top, 0);
    FirstWithConfidence(s, top, k);
    SortIsStable(s, top);
  }

  /** The ranking can be built without raising: enough scores, and the argmax names a class. */
  predicate Rankable(scores: seq<real>)
  {
    |scores| >= |ClassNames| && ArgMax(scores) < |ClassNames|
  }

  /**
   * The first `TopK` entries of a sorted permutation of `src` are in `src`,
   * are sorted, and no entry left out of them is above any of them.
   */
  lemma TopOfSorted(all: seq<Entry>, src: seq<Entry>)
    requires |all| >= TopK && NonIncreasing(all) && multiset(all) == multiset(src)
    ensures NonIncreasing(all[..TopK])
    ensures multiset(all[..TopK]) <= multiset(src)
    ensures forall e :: e in src && e !in all[..TopK] ==> e.confidence <= all[TopK - 1].confidence
  {
    assert all == all[..TopK] + all[TopK..];
    forall e | e in src && e !in all[..TopK]
      ensures e.confidence <= all[TopK - 1].confidence
    {
      assert e in multiset(all);
      var j :| 0 <= j < |all| && all[j] == e;
      assert j >= TopK;
    }
  }

  /**
   * The answer built from a score vector: the class at the first largest
   * score, that score as a percentage, and the first three entries of the
   * stably sorted list of every class with its score (the first ten
   * scores, one per class, when the vector is longer).
   */
  function Ranked(scores: seq<real>): (p: Prediction)
    requires Rankable(scores)
  {
    var k := ArgMax(scores);
    Prediction(ClassNames[k], scores[k] * 100.0, SortDescending(Labelled(scores[..|ClassNames|]))[..TopK])
  }

  /**
   * The ranked answer names the class at the first largest score with
   * that score as a percentage, which is also the first ranked entry.
   */
  lemma RankedHead(scores: seq<real>)
    requires Rankable(scores)
    ensures var p := Ranked(scores);
      && IsFirstMax(scores, ArgMax(scores)) && p.className == ClassNames[ArgMax(scores)]
      && p.confidence == scores[ArgMax(scores)] * 100.0
      && (forall j :: 0 <= j < |scores| ==> scores[j] * 100.0 <= p.confidence)
      && |p.top| == TopK
      && p.top[0] == Entry(p.className, p.confidence)
  {
    var head := scores[..|ClassNames|];
    var k := ArgMax(scores);
    ArgMaxOfPrefix(scores, |ClassNames|);
    SortedHeadIsArgMax(head);
    assert Labelled(head)[k] == Entry(ClassNames[k], scores[k] * 100.0);
  }

  /**
   * The three returned entries are entries of the class list, in
   * non-increasing confidence, and no class left out is above any of them.
   */
  lemma RankedTop(scores: seq<real>)
    requires Rankable(scores)
    ensures var p := Ranked(scores);
      && |p.top| == TopK
      && NonIncreasing(p.top)
      && multiset(p.top) <= multiset(Labelled(scores[..|ClassNames|]))
      && (forall e :: e in Labelled(scores[..|ClassNames|]) && e !in p.top ==>
            e.confidence <= p.top[TopK - 1].confidence)
  {
    var head := scores[..|ClassNames|];
    TopOfSorted(SortDescending(Labelled(head)), Labelled(head));
  }

  /** Decimal digits of a natural number. */
  function NatToString(n: nat): string
  {
    var digit := ["0", "1", "2", "3", "4", "5", "6", "7", "8", "9"][n % 10];
    if n < 10 then digit else NatToString(n / 10) + digit
  }

  /**
   * The text of the exception the ranking raises on a score vector it
   * cannot rank: NumPy's argmax of an empty vector, a class index past
   * the label list, or reading a score past the end of a short vector.
   */
  function RankError(scores: seq<real>): string
    requires !Rankable(scores)
  {
    if |scores| == 0 then "attempt to get argmax of an empty sequence"
    else if ArgMax(scores) >= |ClassNames| then "list index out of range"
    else
      "index " + NatToString(|scores|) + " is out of bounds for axis 0 with size " + NatToString(|scores|)
  }

  /**
   * Ranks a model output vector: picks the argmax, lists every class with
   * its percentage in class order, sorts that list and keeps three entries.
   */
  method Rank(scores: seq<real>) returns (r: Result<Prediction, string>)
    ensures r.Success? <==> Rankable(scores)
    ensures r.Success? ==> r.value == Ranked(scores)
    ensures r.Failure? ==> r.error == RankError(scores)
  {
    if |scores| == 0 {
      return Failure(RankError(scores));
    }
    var k := ArgMax(scores);
    if k >= |ClassNames| {
      return Failure(RankError(scores));
    }
    var className := ClassNames[k];
    var confidence := scores[k] * 100.0;
    var all: seq<Entry> := [];
    for i := 0 to |ClassNames|
      invariant i <= |scores|
      invariant |all| == i
      invariant forall j :: 0 <= j < i ==> all[j] == Entry(ClassNames[j], scores[j] * 100.0)
    {
      if i >= |scores| {
        return Failure(RankError(scores));
      }
      all := all + [Entry(ClassNames[i], scores[i] * 100.0)];
    }
    assert all == Labelled(scores[..|ClassNames|]);
    all := SortDescending(all);
    return Success(Prediction(className, confidence, all[..TopK]));
  }
}
