/** What the weights of a generated trie count, and that its sibling order is the cheapest. */
module KeywordOrder {
  import opened Sequences
  import opened KeywordTrie
  import opened KeywordWeights
  import opened KeywordEdges
  import opened KeywordCompiler

  /** Every full prefix below a node starts with the node's own. */
  lemma {:induction false} PrefixesExtend(t: Trie, p: Text)
    requires Annotated(t) && p in Prefixes(t)
    ensures t.fullPrefix <= p
    decreases t
  {
    if p != t.fullPrefix {
      assert p in PrefixesAmong(t.keys);
      var i := PrefixOwner(t.keys, p);
      PrefixesExtend(t.keys[i], p);
    }
  }

  lemma {:induction false} PrefixOwner(keys: seq<Trie>, p: Text) returns (i: nat)
    requires p in PrefixesAmong(keys)
    ensures i < |keys| && p in Prefixes(keys[i])
    decreases |keys|
  {
    if p in Prefixes(keys[0]) {
      i := 0;
    } else {
      i := PrefixOwner(keys[1..], p);
      i := i + 1;
    }
  }

  lemma {:induction false} PrefixesDistinct(t: Trie)
    requires Annotated(t) && WellFormed(t)
    ensures Distinct(Prefixes(t))
    decreases t, |t.keys| + 1
  {
    PrefixesAmongDistinct(t, 0);
    assert t.keys[0..] == t.keys;
    forall p | p in PrefixesAmong(t.keys) ensures p != t.fullPrefix {
      var i := PrefixOwner(t.keys, p);
      PrefixesExtend(t.keys[i], p);
    }
    DistinctAppend([t.fullPrefix], PrefixesAmong(t.keys));
  }

  lemma {:induction false} PrefixesAmongDistinct(t: Trie, i: nat)
    requires Annotated(t) && WellFormed(t) && i <= |t.keys|
    ensures Distinct(PrefixesAmong(t.keys[i..]))
    decreases t, |t.keys| - i
  {
    if i < |t.keys| {
      var n := |t.fullPrefix|;
      assert t.keys[i..][1..] == t.keys[i + 1..];
      PrefixesDistinct(t.keys[i]);
      PrefixesAmongDistinct(t, i + 1);
      forall p | p in Prefixes(t.keys[i]) ensures p !in PrefixesAmong(t.keys[i + 1..]) {
        PrefixesExtend(t.keys[i], p);
        assert p[n] == t.keys[i].prefix[0];
        if p in PrefixesAmong(t.keys[i + 1..]) {
          var j := PrefixOwner(t.keys[i + 1..], p);
          PrefixesExtend(t.keys[i + 1..][j], p);
        }
      }
      DistinctAppend(Prefixes(t.keys[i]), PrefixesAmong(t.keys[i + 1..]));
    }
  }

  lemma {:induction false} PrefixesInclude(keys: seq<Trie>, i: nat, p: Text)
    requires i < |keys| && p in Prefixes(keys[i])
    ensures p in PrefixesAmong(keys)
    decreases i
  {
    if i > 0 {
      PrefixesInclude(keys[1..], i - 1, p);
    }
  }

  /** Every word of a subtree is the full prefix of one of its nodes. */
  lemma {:induction false} WordsArePrefixes(t: Trie, s: Text)
    requires Annotated(t) && WellFormed(t) && Has(t, s)
    ensures t.fullPrefix + s in Prefixes(t)
    decreases t
  {
    if s == [] {
      assert t.fullPrefix + s == Prefixes(t)[0];
    } else if i :| 0 <= i < |t.keys| && t.keys[i].prefix <= s {
      var rest := s[|t.keys[i].prefix|..];
      assert s == t.keys[i].prefix + rest;
      ChildHas(t, i, rest);
      WordsArePrefixes(t.keys[i], rest);
      assert t.keys[i].fullPrefix + rest == t.fullPrefix + s;
      PrefixesInclude(t.keys, i, t.fullPrefix + s);
    } else {
      FindAmongMiss(t.keys, s);
    }
  }

  /** In the generated trie every subtree weighs the sum over its nodes' full prefixes, which
      are distinct and include every keyword, and at every node no other order of the children
      has a smaller weighted sum of ranks. */
  lemma GeneratedOrder(entries: seq<Entry>, weights: Weights)
    ensures var t := Generate(entries, weights);
            && Weighed(t, weights) && OrderIsOptimal(t)
            && Distinct(Prefixes(t)) && forall k :: k in Table(entries) ==> k in Prefixes(t)
  {
    var t, root := Generate(entries, weights), Compress(Build(entries));
    GenerateShape(entries, weights);
    FillOutWeighs(root, [], weights);
    FillOutIsOptimal(root, [], weights);
    PrefixesDistinct(t);
    forall k | k in Table(entries) ensures k in Prefixes(t) {
      WordsArePrefixes(t, k);
      assert t.fullPrefix + k == k;
    }
  }
}
