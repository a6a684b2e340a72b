/**
  The recall measure of the benchmarks: how many of the first k ground
  truth ids (k = the number of predictions) are among the predictions.
  The counter is a 32-bit unsigned integer.
*/
module Recall {
  import opened Page

  const U32Modulus: int := 0x1_0000_0000

  /** The number of positions i < n whose ground truth id is among the predictions. */
  function Hits(predictions: seq<Id>, truth: seq<Id>, n: nat): (r: nat)
    requires n <= |truth|
    ensures r <= n
  {
    if n == 0 then 0
    else Hits(predictions, truth, n - 1) + (if truth[n - 1] in predictions then 1 else 0)
  }

  /** intersection: one pass over the first |predictions| ground truth ids, looking each up. */
  method Intersection(predictions: seq<Id>, groundTruth: seq<Id>) returns (r: Id)
    requires |predictions| <= |groundTruth|
    ensures r == Hits(predictions, groundTruth, |predictions|) % U32Modulus
    ensures |predictions| < U32Modulus ==> r == Hits(predictions, groundTruth, |predictions|)
  {
    var count: Id := 0;
    var preds := Elements(predictions);
    var topK := |predictions|;
    var i := 0;
    while i < topK
      invariant i <= topK
      invariant count == Hits(predictions, groundTruth, i) % U32Modulus
    {
      ElementsHas(predictions, groundTruth[i]);
      if groundTruth[i] in preds {
        IncrementWraps(Hits(predictions, groundTruth, i));
        count := (count + 1) % U32Modulus;
      }
      i := i + 1;
    }
    r := count;
  }

  /** Incrementing a counter kept modulo 2^32 tracks the true count modulo 2^32. */
  lemma IncrementWraps(a: nat)
    ensures (a % U32Modulus + 1) % U32Modulus == (a + 1) % U32Modulus
  {
  }

  /** The positions i < n whose ground truth id is among the predictions. */
  function HitPositions(predictions: seq<Id>, truth: seq<Id>, n: nat): set<nat>
    requires n <= |truth|
  {
    set i: nat | i < n && truth[i] in predictions
  }

  /** Hits counts exactly the hit positions. */
  lemma {:induction false} HitsCountsPositions(predictions: seq<Id>, truth: seq<Id>, n: nat)
    requires n <= |truth|
    ensures Hits(predictions, truth, n) == |HitPositions(predictions, truth, n)|
  {
    if n > 0 {
      HitsCountsPositions(predictions, truth, n - 1);
      var before := HitPositions(predictions, truth, n - 1);
      if truth[n - 1] in predictions {
        assert HitPositions(predictions, truth, n) == before + {n - 1};
      } else {
        assert HitPositions(predictions, truth, n) == before;
      }
    }
  }

  /** Only which ids were predicted matters, not their order or repetition. */
  lemma {:induction false} HitsDependOnlyOnSet(p1: seq<Id>, p2: seq<Id>, truth: seq<Id>, n: nat)
    requires n <= |truth|
    requires forall x :: x in p1 <==> x in p2
    ensures Hits(p1, truth, n) == Hits(p2, truth, n)
  {
    if n > 0 {
      HitsDependOnlyOnSet(p1, p2, truth, n - 1);
    }
  }

  predicate Distinct(s: seq<Id>)
  {
    forall i, j | 0 <= i < j < |s| :: s[i] != s[j]
  }

  /** The ids occurring in s. */
  function Elements(s: seq<Id>): set<Id>
  {
    if |s| == 0 then {} else Elements(s[..|s| - 1]) + {s[|s| - 1]}
  }

  lemma {:induction false} ElementsHas(s: seq<Id>, x: Id)
    ensures x in Elements(s) <==> x in s
  {
    if |s| > 0 {
      ElementsHas(s[..|s| - 1], x);
      assert s == s[..|s| - 1] + [s[|s| - 1]];
    }
  }

  /**
    With distinct ground truth ids, the count is the size of the
    intersection of the predicted ids and the first n ground truth ids.
  */
  lemma {:induction false} HitsIsIntersection(predictions: seq<Id>, truth: seq<Id>, n: nat)
    requires n <= |truth| && Distinct(truth)
    ensures Hits(predictions, truth, n) == Overlap(predictions, truth, n)
  {
    if n > 0 {
      HitsIsIntersection(predictions, truth, n - 1);
      IntersectionStep(predictions, truth, n);
      assert Hits(predictions, truth, n) == Hits(predictions, truth, n - 1) + Bit(predictions, truth, n);
    } else {
      OverlapNone(predictions, truth);
    }
  }

  /** 1 when ground truth id n - 1 is among the predictions, else 0. */
  function Bit(predictions: seq<Id>, truth: seq<Id>, n: nat): nat
    requires 0 < n <= |truth|
  {
    if truth[n - 1] in predictions then 1 else 0
  }

  /** How many of the predicted ids are among the first n ground truth ids. */
  function Overlap(predictions: seq<Id>, truth: seq<Id>, n: nat): nat
    requires n <= |truth|
  {
    |Elements(predictions) * Elements(truth[..n])|
  }

  /**
    Taking one more distinct ground truth id grows the intersection by one
    exactly when that id was predicted.
  */
  lemma IntersectionStep(predictions: seq<Id>, truth: seq<Id>, n: nat)
    requires 0 < n <= |truth| && Distinct(truth)
    ensures Overlap(predictions, truth, n) == Overlap(predictions, truth, n - 1) + Bit(predictions, truth, n)
  {
    var t, preds, before := truth[n - 1], Elements(predictions), Elements(truth[..n - 1]);
    assert truth[..n] == truth[..n - 1] + [t];
    ElementsSnoc(truth[..n - 1], t);
    LaterNotEarlier(truth, n - 1);
    IntersectStep(preds, before, t);
    ElementsHas(predictions, t);
  }

  lemma OverlapNone(predictions: seq<Id>, truth: seq<Id>)
    ensures Overlap(predictions, truth, 0) == 0
  {
    assert Elements(predictions) * {} == {};
  }

  lemma ElementsSnoc(s: seq<Id>, x: Id)
    ensures Elements(s + [x]) == Elements(s) + {x}
  {
    assert (s + [x])[..|s|] == s;
  }

  /** Adding a new element to one side grows an intersection by one exactly when the other side holds it. */
  lemma IntersectStep(p: set<Id>, e: set<Id>, t: Id)
    requires t !in e
    ensures |p * (e + {t})| == |p * e| + if t in p then 1 else 0
  {
    if t in p {
      assert p * (e + {t}) == p * e + {t};
    } else {
      assert p * (e + {t}) == p * e;
    }
  }

  /** Perfect predictions: when the first k ground truth ids are predicted, the count is k. */
  lemma {:induction false} PerfectRecall(predictions: seq<Id>, truth: seq<Id>, n: nat)
    requires n <= |truth|
    requires forall i | 0 <= i < n :: truth[i] in predictions
    ensures Hits(predictions, truth, n) == n
  {
    if n > 0 {
      PerfectRecall(predictions, truth, n - 1);
    }
  }

  /** In a sequence of distinct ids, the id at position n does not occur before it. */
  lemma LaterNotEarlier(s: seq<Id>, n: nat)
    requires Distinct(s) && n < |s|
    ensures s[n] !in Elements(s[..n])
  {
    var pre := s[..n];
    ElementsHas(pre, s[n]);
    assert forall j | 0 <= j < |pre| :: pre[j] == s[j];
  }
}
