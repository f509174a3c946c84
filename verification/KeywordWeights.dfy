/** `fillOut`: full prefixes, weights, and the order in which siblings are tried.
    Weights are counted in hundredths. */
module KeywordWeights {
  import opened KeywordTrie
  import Sequences

  type Weights = map<Text, nat>

  // ----- The pass -----

  function WeightOf(weights: Weights, s: Text): nat {
    if s in weights then weights[s] else 0
  }

  function TotalWeight(keys: seq<Trie>): nat {
    if keys == [] then 0 else keys[0].weight + TotalWeight(keys[1..])
  }

  function FillOut(t: Trie, prefix: Text, weights: Weights): Trie
    decreases t
  {
    var full := prefix + t.prefix;
    var self := WeightOf(weights, full);
    var keys := FillOutAll(t.keys, full, weights);
    t.(fullPrefix := full, selfWeight := self, keys := SortByWeight(keys),
       weight := self + TotalWeight(keys))
  }

  function FillOutAll(keys: seq<Trie>, prefix: Text, weights: Weights): (r: seq<Trie>)
    decreases keys
  {
    if keys == [] then [] else [FillOut(keys[0], prefix, weights)] + FillOutAll(keys[1..], prefix, weights)
  }

  /** Python's `sorted(..., reverse=True)`: decreasing weights, ties in their original order. */
  function SortByWeight(keys: seq<Trie>): seq<Trie> {
    if keys == [] then []
    else InsertByWeight(SortByWeight(keys[..|keys| - 1]), keys[|keys| - 1])
  }

  function InsertByWeight(sorted: seq<Trie>, t: Trie): seq<Trie> {
    var i := RankOf(sorted, t.weight);
    sorted[..i] + [t] + sorted[i..]
  }

  /** The number of leading siblings that weigh at least `w`. */
  function RankOf(sorted: seq<Trie>, w: nat): (i: nat)
    ensures i <= |sorted|
    ensures forall j :: 0 <= j < i ==> sorted[j].weight >= w
    ensures i < |sorted| ==> sorted[i].weight < w
  {
    if sorted == [] || sorted[0].weight < w then 0 else 1 + RankOf(sorted[1..], w)
  }

  // ----- The order is the stable decreasing one, and the only such -----

  ghost predicate Decreasing(keys: seq<Trie>) {
    forall i, j :: 0 <= i < j < |keys| ==> keys[i].weight >= keys[j].weight
  }

  function OfWeight(keys: seq<Trie>, w: nat): seq<Trie> {
    if keys == [] then []
    else (if keys[0].weight == w then [keys[0]] else []) + OfWeight(keys[1..], w)
  }

  lemma {:induction false} OfWeightAppend(a: seq<Trie>, b: seq<Trie>, w: nat)
    ensures OfWeight(a + b, w) == OfWeight(a, w) + OfWeight(b, w)
  {
    if a == [] {
      assert a + b == b;
    } else {
      assert (a + b)[1..] == a[1..] + b;
      OfWeightAppend(a[1..], b, w);
    }
  }

  lemma {:induction false} OfWeightNone(keys: seq<Trie>, w: nat)
    requires forall i :: 0 <= i < |keys| ==> keys[i].weight != w
    ensures OfWeight(keys, w) == []
  {
    if keys != [] {
      OfWeightNone(keys[1..], w);
    }
  }

  lemma InsertByWeightSorts(sorted: seq<Trie>, t: Trie)
    requires Decreasing(sorted)
    ensures Decreasing(InsertByWeight(sorted, t))
  {
  }

  lemma LighterAfterwards(a: seq<Trie>, t: Trie, b: seq<Trie>, w: nat)
    requires forall i :: 0 <= i < |b| ==> b[i].weight < t.weight
    ensures OfWeight(a + [t] + b, w) == OfWeight(a + b + [t], w)
  {
    OfWeightAppend(a + [t], b, w);
    OfWeightAppend(a, [t], w);
    OfWeightAppend(a + b, [t], w);
    OfWeightAppend(a, b, w);
    if w == t.weight {
      OfWeightNone(b, w);
    } else {
      OfWeightNone([t], w);
    }
  }

  lemma InsertByWeightIsStable(sorted: seq<Trie>, t: Trie, w: nat)
    requires Decreasing(sorted)
    ensures OfWeight(InsertByWeight(sorted, t), w) == OfWeight(sorted + [t], w)
  {
    var i := RankOf(sorted, t.weight);
    assert sorted == sorted[..i] + sorted[i..];
    LighterAfterwards(sorted[..i], t, sorted[i..], w);
  }

  lemma {:induction false} SortByWeightSorts(keys: seq<Trie>)
    ensures Decreasing(SortByWeight(keys))
    ensures forall w :: OfWeight(SortByWeight(keys), w) == OfWeight(keys, w)
  {
    if keys != [] {
      var init, last := keys[..|keys| - 1], keys[|keys| - 1];
      SortByWeightSorts(init);
      assert keys == init + [last];
      InsertByWeightSorts(SortByWeight(init), last);
      forall w ensures OfWeight(SortByWeight(keys), w) == OfWeight(keys, w) {
        InsertByWeightIsStable(SortByWeight(init), last, w);
        OfWeightAppend(init, [last], w);
        OfWeightAppend(SortByWeight(init), [last], w);
      }
    }
  }

  lemma {:induction false} SortByWeightPermutes(keys: seq<Trie>)
    ensures multiset(SortByWeight(keys)) == multiset(keys)
  {
    if keys != [] {
      var init, last := keys[..|keys| - 1], keys[|keys| - 1];
      SortByWeightPermutes(init);
      assert keys == init + [last];
      var sorted := SortByWeight(init);
      Sequences.InsertPermutes(init, sorted, RankOf(sorted, last.weight), last);
    }
  }

  lemma {:induction false} HeadIsHeaviest(a: seq<Trie>, b: seq<Trie>)
    requires Decreasing(a) && a != []
    requires forall w :: OfWeight(a, w) == OfWeight(b, w)
    ensures b != [] && (Decreasing(b) ==> a[0] == b[0])
  {
    var w := a[0].weight;
    assert OfWeight(a, w)[0] == a[0];
    if b == [] {
    } else if Decreasing(b) {
      var v := b[0].weight;
      assert OfWeight(b, v)[0] == b[0];
      if v > w {
        OfWeightNone(a, v);
      } else if v < w {
        OfWeightNone(b, w);
      }
    }
  }

  /** The stable decreasing order determines the list: whatever sort is used, the siblings
      come out as `SortByWeight` puts them. */
  lemma {:induction false} StableOrderIsUnique(a: seq<Trie>, b: seq<Trie>)
    requires Decreasing(a) && Decreasing(b)
    requires forall w :: OfWeight(a, w) == OfWeight(b, w)
    ensures a == b
  {
    if a == [] {
      if b != [] {
        HeadIsHeaviest(b, a);
      }
    } else {
      HeadIsHeaviest(a, b);
      forall w ensures OfWeight(a[1..], w) == OfWeight(b[1..], w) {
        assert OfWeight(a, w) == OfWeight(b, w);
        var head := if a[0].weight == w then [a[0]] else [];
        assert OfWeight(a[1..], w) == OfWeight(a, w)[|head|..];
        assert OfWeight(b[1..], w) == OfWeight(b, w)[|head|..];
      }
      StableOrderIsUnique(a[1..], b[1..]);
      assert a == [a[0]] + a[1..] && b == [b[0]] + b[1..];
    }
  }

  // ----- The order is optimal -----

  /** The weighted number of failed tests before each sibling is tried, the first at rank `r`. */
  function Cost(keys: seq<Trie>, r: nat): nat {
    if keys == [] then 0 else r * keys[0].weight + Cost(keys[1..], r + 1)
  }

  lemma {:induction false} CostAppend(a: seq<Trie>, b: seq<Trie>, r: nat)
    ensures Cost(a + b, r) == Cost(a, r) + Cost(b, r + |a|)
  {
    if a == [] {
      assert a + b == b;
    } else {
      assert (a + b)[1..] == a[1..] + b;
      CostAppend(a[1..], b, r + 1);
    }
  }

  lemma {:induction false} CostShift(keys: seq<Trie>, r: nat)
    ensures Cost(keys, r + 1) == Cost(keys, r) + TotalWeight(keys)
  {
    if keys != [] {
      CostShift(keys[1..], r + 1);
      assert (r + 1) * keys[0].weight == r * keys[0].weight + keys[0].weight;
    }
  }

  lemma {:induction false} TotalWeightBound(keys: seq<Trie>, w: nat)
    requires forall i :: 0 <= i < |keys| ==> keys[i].weight <= w
    ensures TotalWeight(keys) <= |keys| * w
  {
    if keys != [] {
      TotalWeightBound(keys[1..], w);
      assert |keys| * w == w + |keys[1..]| * w;
    }
  }

  /** Moving a heaviest sibling to the front does not raise the cost. */
  lemma MoveToFront(a: seq<Trie>, t: Trie, b: seq<Trie>, r: nat)
    requires forall i :: 0 <= i < |a| ==> a[i].weight <= t.weight
    ensures Cost([t] + (a + b), r) <= Cost(a + [t] + b, r)
  {
    var c := [t] + b;
    assert a + [t] + b == a + c;
    CostAppend(a, c, r);
    assert c[1..] == b;
    assert ([t] + (a + b))[1..] == a + b;
    CostAppend(a, b, r + 1);
    CostShift(a, r);
    TotalWeightBound(a, t.weight);
    assert (r + |a|) * t.weight == r * t.weight + |a| * t.weight;
  }

  lemma {:induction false} DecreasingIsOptimal(keys: seq<Trie>, other: seq<Trie>, r: nat)
    requires Decreasing(keys) && multiset(keys) == multiset(other)
    ensures Cost(keys, r) <= Cost(other, r)
    decreases |keys|
  {
    Sequences.SameLength(keys, other);
    if keys != [] {
      var t := keys[0];
      var i := Sequences.IndexIn(keys, other, t);
      var a, b := other[..i], other[i + 1..];
      assert other == a + [t] + b;
      forall j | 0 <= j < |a| ensures a[j].weight <= t.weight {
        assert other[j] in other;
        var m := Sequences.IndexIn(other, keys, other[j]);
      }
      MoveToFront(a, t, b, r);
      Sequences.MoveToFrontPermutes(a, t, b);
      Sequences.TailsPermute(keys, t, a + b);
      assert ([t] + (a + b))[1..] == a + b;
      DecreasingIsOptimal(keys[1..], a + b, r + 1);
    }
  }

  /** At every node, no permutation of the children is cheaper than the emitted order. */
  ghost predicate OrderIsOptimal(t: Trie)
    decreases t
  {
    && (forall p: seq<Trie> :: multiset(t.keys) == multiset(p) ==> Cost(t.keys, 0) <= Cost(p, 0))
    && forall i :: 0 <= i < |t.keys| ==> OrderIsOptimal(t.keys[i])
  }

  lemma {:induction false} FillOutAllAt(keys: seq<Trie>, prefix: Text, weights: Weights)
    ensures var r := FillOutAll(keys, prefix, weights);
            |r| == |keys| && forall i :: 0 <= i < |keys| ==> r[i] == FillOut(keys[i], prefix, weights)
    decreases |keys|
  {
    if keys != [] {
      FillOutAllAt(keys[1..], prefix, weights);
    }
  }

  /** Sorting loses and invents no child. */
  lemma {:induction false} SortByWeightMembers(keys: seq<Trie>)
    ensures |SortByWeight(keys)| == |keys|
    ensures forall i :: 0 <= i < |keys| ==> keys[i] in SortByWeight(keys)
    ensures forall i :: 0 <= i < |keys| ==> SortByWeight(keys)[i] in keys
  {
    SortByWeightPermutes(keys);
    Sequences.SameLength(SortByWeight(keys), keys);
    forall i | 0 <= i < |keys| ensures keys[i] in SortByWeight(keys) && SortByWeight(keys)[i] in keys {
      var j := Sequences.IndexIn(keys, SortByWeight(keys), keys[i]);
      var k := Sequences.IndexIn(SortByWeight(keys), keys, SortByWeight(keys)[i]);
    }
  }

  lemma SortedIsOptimal(t: Trie, keys: seq<Trie>)
    requires t.keys == SortByWeight(keys) && forall i :: 0 <= i < |keys| ==> OrderIsOptimal(keys[i])
    ensures OrderIsOptimal(t)
  {
    SortByWeightMembers(keys);
    SortByWeightSorts(keys);
    forall p: seq<Trie> | multiset(t.keys) == multiset(p) ensures Cost(t.keys, 0) <= Cost(p, 0) {
      DecreasingIsOptimal(t.keys, p, 0);
    }
  }

  lemma {:induction false} FillOutIsOptimal(t: Trie, prefix: Text, weights: Weights)
    ensures OrderIsOptimal(FillOut(t, prefix, weights))
    decreases t
  {
    var full := prefix + t.prefix;
    FillOutAllAt(t.keys, full, weights);
    forall i | 0 <= i < |t.keys| ensures OrderIsOptimal(FillOut(t.keys[i], full, weights)) {
      FillOutIsOptimal(t.keys[i], full, weights);
    }
    SortedIsOptimal(FillOut(t, prefix, weights), FillOutAll(t.keys, full, weights));
  }

  // ----- The pass keeps the meaning -----

  /** `fullPrefix` is the path from the root. */
  ghost predicate Annotated(t: Trie)
    decreases t
  {
    forall i :: 0 <= i < |t.keys| ==> t.keys[i].fullPrefix == t.fullPrefix + t.keys[i].prefix && Annotated(t.keys[i])
  }

  lemma BranchingInsert(keys: seq<Trie>, i: nat, t: Trie)
    requires Branching(keys) && i <= |keys| && t.prefix != []
    requires forall j :: 0 <= j < |keys| ==> keys[j].prefix[0] != t.prefix[0]
    ensures Branching(keys[..i] + [t] + keys[i..])
  {
  }

  lemma {:induction false} SortedBranching(keys: seq<Trie>)
    requires Branching(keys)
    ensures Branching(SortByWeight(keys))
  {
    if keys != [] {
      var init, last := keys[..|keys| - 1], keys[|keys| - 1];
      SortedBranching(init);
      SortByWeightMembers(init);
      var sorted := SortByWeight(init);
      assert forall j :: 0 <= j < |init| ==> init[j].prefix[0] != last.prefix[0];
      BranchingInsert(sorted, RankOf(sorted, last.weight), last);
    }
  }

  lemma ReorderedShape(t: Trie, keys: seq<Trie>)
    requires Branching(t.keys) && forall i :: 0 <= i < |t.keys| ==> t.keys[i] in keys
    requires forall k :: k in keys ==> WellFormed(k) && Annotated(k) && k.fullPrefix == t.fullPrefix + k.prefix
    ensures WellFormed(t) && Annotated(t)
  {
  }

  lemma {:induction false} FillOutShape(t: Trie, prefix: Text, weights: Weights)
    requires WellFormed(t)
    ensures WellFormed(FillOut(t, prefix, weights)) && Annotated(FillOut(t, prefix, weights))
    decreases t
  {
    var r, full := FillOut(t, prefix, weights), prefix + t.prefix;
    var keys := FillOutAll(t.keys, full, weights);
    FillOutAllAt(t.keys, full, weights);
    forall i | 0 <= i < |t.keys|
      ensures WellFormed(keys[i]) && Annotated(keys[i]) && keys[i].fullPrefix == full + keys[i].prefix
    {
      FillOutShape(t.keys[i], full, weights);
    }
    SortByWeightMembers(keys);
    SortedBranching(keys);
    ReorderedShape(r, keys);
  }

  lemma ReorderedCompressed(t: Trie, keys: seq<Trie>)
    requires forall i :: 0 <= i < |t.keys| ==> t.keys[i] in keys
    requires forall k :: k in keys ==> Compressed(k) && (k.value.Some? || |k.keys| >= 2)
    ensures Compressed(t)
  {
  }

  lemma {:induction false} FillOutCompressed(t: Trie, prefix: Text, weights: Weights)
    requires Compressed(t)
    ensures Compressed(FillOut(t, prefix, weights)) && |FillOut(t, prefix, weights).keys| == |t.keys|
    decreases t
  {
    var full := prefix + t.prefix;
    var keys := FillOutAll(t.keys, full, weights);
    FillOutAllAt(t.keys, full, weights);
    forall i | 0 <= i < |t.keys| ensures Compressed(keys[i]) && (keys[i].value.Some? || |keys[i].keys| >= 2) {
      FillOutCompressed(t.keys[i], full, weights);
    }
    SortByWeightMembers(keys);
    ReorderedCompressed(FillOut(t, prefix, weights), keys);
  }

  lemma {:induction false} FillOutMeaning(t: Trie, prefix: Text, weights: Weights, s: Text)
    requires WellFormed(t)
    ensures Find(FillOut(t, prefix, weights), s) == Find(t, s)
    decreases t
  {
    var full := prefix + t.prefix;
    var keys := FillOutAll(t.keys, full, weights);
    FillOutAllAt(t.keys, full, weights);
    forall i | 0 <= i < |t.keys|
      ensures StandsFor(keys[i], t.keys[i], s)
    {
      if t.keys[i].prefix <= s {
        FillOutMeaning(t.keys[i], full, weights, s[|t.keys[i].prefix|..]);
      }
    }
    FindAmongReplaced(t.keys, keys, s);
    FindAmongSorted(keys, s);
  }

  lemma FindAmongSorted(keys: seq<Trie>, s: Text)
    requires Branching(keys)
    ensures FindAmong(SortByWeight(keys), s) == FindAmong(keys, s)
  {
    SortByWeightMembers(keys);
    SortedBranching(keys);
    FindAmongReordered(keys, SortByWeight(keys), s);
  }

  // ----- Weights -----

  /** The full prefixes of a subtree's nodes. */
  function Prefixes(t: Trie): seq<Text>
    decreases t
  {
    [t.fullPrefix] + PrefixesAmong(t.keys)
  }

  function PrefixesAmong(keys: seq<Trie>): seq<Text>
    decreases keys
  {
    if keys == [] then [] else Prefixes(keys[0]) + PrefixesAmong(keys[1..])
  }

  function WeightSum(weights: Weights, prefixes: seq<Text>): nat {
    if prefixes == [] then 0 else WeightOf(weights, prefixes[0]) + WeightSum(weights, prefixes[1..])
  }

  lemma {:induction false} WeightSumAppend(weights: Weights, a: seq<Text>, b: seq<Text>)
    ensures WeightSum(weights, a + b) == WeightSum(weights, a) + WeightSum(weights, b)
  {
    if a == [] {
      assert a + b == b;
    } else {
      assert (a + b)[1..] == a[1..] + b;
      WeightSumAppend(weights, a[1..], b);
    }
  }

  lemma {:induction false} TotalWeightSum(weights: Weights, keys: seq<Trie>)
    requires forall i :: 0 <= i < |keys| ==> keys[i].weight == WeightSum(weights, Prefixes(keys[i]))
    ensures TotalWeight(keys) == WeightSum(weights, PrefixesAmong(keys))
  {
    if keys != [] {
      TotalWeightSum(weights, keys[1..]);
      WeightSumAppend(weights, Prefixes(keys[0]), PrefixesAmong(keys[1..]));
    }
  }

  lemma {:induction false} TotalWeightAppend(a: seq<Trie>, b: seq<Trie>)
    ensures TotalWeight(a + b) == TotalWeight(a) + TotalWeight(b)
  {
    if a == [] {
      assert a + b == b;
    } else {
      assert (a + b)[1..] == a[1..] + b;
      TotalWeightAppend(a[1..], b);
    }
  }

  lemma {:induction false} TotalWeightSorted(keys: seq<Trie>)
    ensures TotalWeight(SortByWeight(keys)) == TotalWeight(keys)
  {
    if keys != [] {
      var init, last := keys[..|keys| - 1], keys[|keys| - 1];
      TotalWeightSorted(init);
      assert keys == init + [last];
      TotalWeightAppend(init, [last]);
      var sorted := SortByWeight(init);
      var i := RankOf(sorted, last.weight);
      var a, b := sorted[..i], sorted[i..];
      assert sorted == a + b;
      TotalWeightAppend(a, b);
      TotalWeightAppend(a + [last], b);
      TotalWeightAppend(a, [last]);
    }
  }

  /** Every subtree weighs the sum of the weights of its nodes' full prefixes. */
  ghost predicate Weighed(t: Trie, weights: Weights)
    decreases t
  {
    t.weight == WeightSum(weights, Prefixes(t)) && forall i :: 0 <= i < |t.keys| ==> Weighed(t.keys[i], weights)
  }

  lemma SortedWeighed(t: Trie, keys: seq<Trie>, weights: Weights)
    requires t.keys == SortByWeight(keys) && forall i :: 0 <= i < |keys| ==> Weighed(keys[i], weights)
    requires t.weight == WeightOf(weights, t.fullPrefix) + TotalWeight(keys)
    ensures Weighed(t, weights)
  {
    SortByWeightMembers(keys);
    TotalWeightSorted(keys);
    TotalWeightSum(weights, t.keys);
    WeightSumAppend(weights, [t.fullPrefix], PrefixesAmong(t.keys));
    assert [t.fullPrefix][1..] == [];
  }

  lemma {:induction false} FillOutWeighs(t: Trie, prefix: Text, weights: Weights)
    ensures Weighed(FillOut(t, prefix, weights), weights)
    decreases t
  {
    var full := prefix + t.prefix;
    FillOutAllAt(t.keys, full, weights);
    forall i | 0 <= i < |t.keys| ensures Weighed(FillOut(t.keys[i], full, weights), weights) {
      FillOutWeighs(t.keys[i], full, weights);
    }
    SortedWeighed(FillOut(t, prefix, weights), FillOutAll(t.keys, full, weights), weights);
  }
}
