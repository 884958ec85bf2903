/** Greedy pairing of opening and closing delimiter positions
  * (Markdown/PairFinder.cs, behind the interface of Markdown/IPairFinder.cs). */
module PairFinder {

  /** A matched span: the position of its opening and of its closing delimiter. */
  datatype Pair = Pair(a: int, b: int)

  predicate StrictlyIncreasing(s: seq<int>) {
    forall k, l :: 0 <= k < l < |s| ==> s[k] < s[l]
  }

  /** Each pair opens before it closes, and closes before the next one opens. */
  predicate Chained(r: seq<Pair>) {
    && (forall k :: 0 <= k < |r| ==> r[k].a < r[k].b)
    && (forall k :: 0 <= k < |r| - 1 ==> r[k].b < r[k + 1].a)
  }

  /** The pairs the loop of FindTagPairs emits from cursor state (i, j) on. */
  function PairsFrom(openings: seq<int>, closings: seq<int>, i: nat, j: nat): seq<Pair>
    requires i <= |openings| && j <= |closings|
    decreases |openings| - i + |closings| - j
  {
    if i == |openings| || j == |closings| then []
    else if closings[j] <= openings[i] then PairsFrom(openings, closings, i, j + 1)
    else if i < |openings| - 1 then
      if openings[i + 1] < closings[j] then PairsFrom(openings, closings, i + 1, j)
      else
        var next := if openings[i + 1] == closings[j] then i + 2 else i + 1;
        [Pair(openings[i], closings[j])] + PairsFrom(openings, closings, next, j + 1)
    else [Pair(openings[i], closings[j])] + PairsFrom(openings, closings, i + 1, j + 1)
  }

  function FindPairs(openings: seq<int>, closings: seq<int>): seq<Pair> {
    PairsFrom(openings, closings, 0, 0)
  }

  /** Every pair takes its opening from the openings and its closing from the
    * closings, opens strictly before it closes, and consumes one of each, so
    * there are never more pairs than openings or closings. No ordering of the
    * inputs is needed for this. */
  lemma {:induction false} PairsFromTakeFromInputs(openings: seq<int>, closings: seq<int>, i: nat, j: nat)
    requires i <= |openings| && j <= |closings|
    ensures var r := PairsFrom(openings, closings, i, j);
      && |r| <= |openings| - i && |r| <= |closings| - j
      && forall p :: p in r ==> p.a in openings[i..] && p.b in closings[j..] && p.a < p.b
    decreases |openings| - i + |closings| - j
  {
    if i == |openings| || j == |closings| {
    } else if closings[j] <= openings[i] {
      PairsFromTakeFromInputs(openings, closings, i, j + 1);
    } else if i < |openings| - 1 && openings[i + 1] < closings[j] {
      PairsFromTakeFromInputs(openings, closings, i + 1, j);
    } else {
      var next := if i < |openings| - 1 && openings[i + 1] == closings[j] then i + 2 else i + 1;
      PairsFromTakeFromInputs(openings, closings, next, j + 1);
    }
  }

  /** With increasing openings, every pair emitted from cursor i on opens
    * at or after openings[i]. */
  lemma {:induction false} PairsFromOpenAtOrAfter(openings: seq<int>, closings: seq<int>, i: nat, j: nat)
    requires i < |openings| && j <= |closings|
    requires StrictlyIncreasing(openings)
    ensures forall p :: p in PairsFrom(openings, closings, i, j) ==> openings[i] <= p.a
  {
    PairsFromTakeFromInputs(openings, closings, i, j);
    forall p | p in PairsFrom(openings, closings, i, j) ensures openings[i] <= p.a {
      var m :| i <= m < |openings| && openings[m] == p.a;
    }
  }

  /** With strictly increasing inputs the pairs are chained: ordered and
    * pairwise disjoint, and no pair's closing is reused as the next pair's
    * opening. */
  lemma {:induction false} PairsFromChained(openings: seq<int>, closings: seq<int>, i: nat, j: nat)
    requires i <= |openings| && j <= |closings|
    requires StrictlyIncreasing(openings) && StrictlyIncreasing(closings)
    ensures Chained(PairsFrom(openings, closings, i, j))
    decreases |openings| - i + |closings| - j
  {
    if i == |openings| || j == |closings| {
    } else if closings[j] <= openings[i] {
      PairsFromChained(openings, closings, i, j + 1);
    } else if i < |openings| - 1 && openings[i + 1] < closings[j] {
      PairsFromChained(openings, closings, i + 1, j);
    } else {
      var next := if i < |openings| - 1 && openings[i + 1] == closings[j] then i + 2 else i + 1;
      PairsFromChained(openings, closings, next, j + 1);
      var rest := PairsFrom(openings, closings, next, j + 1);
      if rest != [] {
        assert next < |openings|;
        PairsFromOpenAtOrAfter(openings, closings, next, j + 1);
        assert rest[0] in rest;
        assert closings[j] < openings[next];
      }
      ChainedCons(Pair(openings[i], closings[j]), rest);
    }
  }

  lemma ChainedCons(p: Pair, rest: seq<Pair>)
    requires Chained(rest) && p.a < p.b
    requires rest != [] ==> p.b < rest[0].a
    ensures Chained([p] + rest)
  {
    var r := [p] + rest;
    assert forall k :: 1 <= k < |r| ==> r[k] == rest[k - 1];
  }

  /** Chained pairs are disjoint and in ascending order, not only neighbours. */
  lemma {:induction false} ChainedIsOrdered(r: seq<Pair>)
    requires Chained(r)
    ensures forall k, l :: 0 <= k < l < |r| ==> r[k].b < r[l].a
  {
    if |r| > 1 {
      ChainedIsOrdered(r[1..]);
      forall l | 1 <= l < |r| ensures r[0].b < r[l].a {
        assert r[1..][l - 1] == r[l];
        if l > 1 {
          assert r[1..][0] == r[1];
          assert r[1].b < r[l].a;
        }
      }
    }
  }

  /** No opening and no closing lies strictly inside a pair: an opening is
    * paired with the first closing after it, and of several openings before
    * one closing only the nearest is paired. The extra requirement states
    * what the loop keeps: every closing already passed lies at or before
    * the current opening. */
  lemma {:induction false} PairsFromNearest(openings: seq<int>, closings: seq<int>, i: nat, j: nat)
    requires i <= |openings| && j <= |closings|
    requires StrictlyIncreasing(openings) && StrictlyIncreasing(closings)
    requires i < |openings| ==> forall m :: 0 <= m < j ==> closings[m] <= openings[i]
    ensures forall p :: p in PairsFrom(openings, closings, i, j) ==>
      && (forall x :: x in openings ==> !(p.a < x < p.b))
      && (forall y :: y in closings ==> !(p.a < y < p.b))
    decreases |openings| - i + |closings| - j
  {
    if i == |openings| || j == |closings| {
    } else if closings[j] <= openings[i] {
      PairsFromNearest(openings, closings, i, j + 1);
    } else if i < |openings| - 1 && openings[i + 1] < closings[j] {
      PairsFromNearest(openings, closings, i + 1, j);
    } else {
      var next := if i < |openings| - 1 && openings[i + 1] == closings[j] then i + 2 else i + 1;
      PairsFromNearest(openings, closings, next, j + 1);
      var p := Pair(openings[i], closings[j]);
      forall x | x in openings ensures !(p.a < x < p.b) {
        var m :| 0 <= m < |openings| && openings[m] == x;
        if m > i { assert openings[i + 1] <= x; }
      }
      forall y | y in closings ensures !(p.a < y < p.b) {
        var m :| 0 <= m < |closings| && closings[m] == y;
      }
    }
  }

  /** The properties of the whole pairing. */
  lemma FindPairsProperties(openings: seq<int>, closings: seq<int>)
    ensures var r := FindPairs(openings, closings);
      && |r| <= |openings| && |r| <= |closings|
      && forall p :: p in r ==> p.a in openings && p.b in closings && p.a < p.b
    ensures StrictlyIncreasing(openings) && StrictlyIncreasing(closings) ==>
      var r := FindPairs(openings, closings);
      && Chained(r)
      && (forall k, l :: 0 <= k < l < |r| ==> r[k].b < r[l].a)
      && forall p :: p in r ==>
           && (forall x :: x in openings ==> !(p.a < x < p.b))
           && (forall y :: y in closings ==> !(p.a < y < p.b))
  {
    PairsFromTakeFromInputs(openings, closings, 0, 0);
    assert openings[0..] == openings && closings[0..] == closings;
    if StrictlyIncreasing(openings) && StrictlyIncreasing(closings) {
      PairsFromChained(openings, closings, 0, 0);
      ChainedIsOrdered(FindPairs(openings, closings));
      PairsFromNearest(openings, closings, 0, 0);
    }
  }

  /** A single opening is paired with the first closing strictly after it;
    * later closings are ignored, and with no closing after it there is no pair. */
  lemma {:induction false} SingleOpeningFrom(x: int, closings: seq<int>, j: nat)
    requires j <= |closings|
    ensures var r := PairsFrom([x], closings, 0, j);
      && (r == [] <==> forall m :: j <= m < |closings| ==> closings[m] <= x)
      && (r != [] ==> exists k :: j <= k < |closings| && r == [Pair(x, closings[k])] && x < closings[k]
                                 && forall m :: j <= m < k ==> closings[m] <= x)
    decreases |closings| - j
  {
    if j < |closings| {
      if closings[j] <= x {
        SingleOpeningFrom(x, closings, j + 1);
      } else {
        assert PairsFrom([x], closings, 0, j) == [Pair(x, closings[j])] + PairsFrom([x], closings, 1, j + 1);
      }
    }
  }

  lemma SingleOpening(x: int, closings: seq<int>)
    ensures var r := FindPairs([x], closings);
      && (r == [] <==> forall m :: 0 <= m < |closings| ==> closings[m] <= x)
      && (r != [] ==> exists k :: 0 <= k < |closings| && r == [Pair(x, closings[k])] && x < closings[k]
                                 && forall m :: 0 <= m < k ==> closings[m] <= x)
  {
    SingleOpeningFrom(x, closings, 0);
  }

  /** The cases pinned down by Markdown/PairFinder_Should.cs. */
  lemma Examples()
    ensures FindPairs([], []) == []
    ensures FindPairs([10], []) == []
    ensures FindPairs([], [10]) == []
    ensures FindPairs([10], [9]) == []
    ensures FindPairs([10], [11]) == [Pair(10, 11)]
    ensures FindPairs([10, 11], [11, 12]) == [Pair(10, 11)]
    ensures FindPairs([10], [11, 12]) == [Pair(10, 11)]
  {
  }

  /** The loop of PairFinder.FindTagPairs: two cursors, each iteration
    * advancing one of them or both. */
  method FindTagPairs(openings: seq<int>, closings: seq<int>) returns (result: seq<Pair>)
    ensures result == FindPairs(openings, closings)
    ensures |result| <= |openings| && |result| <= |closings|
    ensures forall p :: p in result ==> p.a in openings && p.b in closings && p.a < p.b
    ensures StrictlyIncreasing(openings) && StrictlyIncreasing(closings) ==> Chained(result)
  {
    result := [];
    var currentOpeningIndex, currentClosingIndex := 0, 0;
    while currentOpeningIndex < |openings| && currentClosingIndex < |closings|
      invariant currentOpeningIndex <= |openings| && currentClosingIndex <= |closings|
      invariant result + PairsFrom(openings, closings, currentOpeningIndex, currentClosingIndex)
                == FindPairs(openings, closings)
      decreases |openings| - currentOpeningIndex + |closings| - currentClosingIndex
    {
      var o, c := openings[currentOpeningIndex], closings[currentClosingIndex];
      if c <= o {
        currentClosingIndex := currentClosingIndex + 1;
      } else if currentOpeningIndex < |openings| - 1 {
        if openings[currentOpeningIndex + 1] < c {
          currentOpeningIndex := currentOpeningIndex + 1;
        } else {
          result := result + [Pair(o, c)];
          currentOpeningIndex := currentOpeningIndex + if openings[currentOpeningIndex + 1] == c then 2 else 1;
          currentClosingIndex := currentClosingIndex + 1;
        }
      } else {
        result := result + [Pair(o, c)];
        currentOpeningIndex := currentOpeningIndex + 1;
        currentClosingIndex := currentClosingIndex + 1;
      }
    }
    FindPairsProperties(openings, closings);
  }
}
