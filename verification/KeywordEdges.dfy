/** What the edges of a compressed trie say about the keywords: every edge lies on a keyword, and
    the tests that the macros can express are exactly those of tables without long gaps. */
module KeywordEdges {
  import opened KeywordTrie

  ghost predicate Has(t: Trie, s: Text) {
    Find(t, s).Some?
  }

  /** `t` carries a value or branches, as do all nodes below it. */
  ghost predicate Dense(t: Trie) {
    WellFormed(t) && Compressed(t) && (t.value.Some? || |t.keys| >= 2)
  }

  /** A child's words are the parent's words that start with its edge. */
  lemma ChildHas(t: Trie, i: nat, s: Text)
    requires WellFormed(t) && i < |t.keys|
    ensures Has(t, t.keys[i].prefix + s) <==> Has(t.keys[i], s)
  {
    var w := t.keys[i].prefix + s;
    FindAmongHit(t.keys, i, w);
    assert w[|t.keys[i].prefix|..] == s;
  }

  /** Every node has a keyword at or below it. */
  lemma {:induction false} WordBelow(t: Trie) returns (s: Text)
    requires Dense(t)
    ensures Has(t, s)
    decreases t
  {
    if t.value.Some? {
      s := [];
    } else {
      var rest := WordBelow(t.keys[0]);
      ChildHas(t, 0, rest);
      s := t.keys[0].prefix + rest;
    }
  }

  /** A word that starts as an edge does has that edge as a prefix. */
  lemma SharesEdge(t: Trie, i: nat, s: Text)
    requires WellFormed(t) && i < |t.keys| && s != [] && s[0] == t.keys[i].prefix[0] && Has(t, s)
    ensures t.keys[i].prefix <= s && Has(t.keys[i], s[|t.keys[i].prefix|..])
  {
    FindAmongAt(t.keys, i, s);
  }

  // ----- Gaps -----

  /** `w` and `s` have their first `j` characters in common and no more. */
  ghost predicate Diverge(w: Text, s: Text, j: nat) {
    j < |w| && j < |s| && w[..j] == s[..j] && w[j] != s[j]
  }

  /** The first `j` characters of `s` are a keyword, or keywords part there. */
  ghost predicate Parts(t: Trie, s: Text, j: nat) {
    j < |s| && (Has(t, s[..j]) || exists w :: Has(t, w) && Diverge(w, s, j))
  }

  ghost predicate PartsWithin(t: Trie, s: Text, a: nat) {
    exists j: nat :: a < j <= a + 8 && Parts(t, s, j)
  }

  /** Along every keyword, keywords part within any eight characters before its end. */
  ghost predicate NoLongGap(t: Trie) {
    forall s, a: nat :: Has(t, s) && a + 8 < |s| ==> PartsWithin(t, s, a)
  }

  ghost predicate EdgesFit(t: Trie)
    decreases t
  {
    forall i :: 0 <= i < |t.keys| ==> |t.keys[i].prefix| <= 8 && EdgesFit(t.keys[i])
  }

  lemma DivergeAbove(edge: Text, w: Text, s: Text, j: nat, u: Text, n: nat)
    requires u == edge + s && n == |edge| + j && Diverge(w, s, j)
    ensures Diverge(edge + w, u, n)
  {
    TakeBehind(edge, w, j, edge + w, n);
    TakeBehind(edge, s, j, u, n);
  }

  lemma TakeBehind(edge: Text, s: Text, j: nat, u: Text, n: nat)
    requires j <= |s| && u == edge + s && n == |edge| + j
    ensures n <= |u| && u[..n] == edge + s[..j]
  {
  }

  lemma DivergeBelow(edge: Text, w: Text, s: Text, j: nat, u: Text, n: nat) returns (v: Text)
    requires u == edge + s && n == |edge| + j && Diverge(w, u, n)
    ensures w == edge + v && Diverge(v, s, j)
  {
    v := w[|edge|..];
    TakeBehind(edge, s, j, u, n);
    assert w[..|edge|] == w[..n][..|edge|] == edge;
    assert w == edge + v;
    TakeBehind(edge, v, j, w, n);
    assert v[..j] == w[..n][|edge|..] == s[..j];
  }

  /** Keywords part below a child at `j` exactly when they part at `n`, behind the edge to it. */
  lemma PartsAbove(t: Trie, i: nat, edge: Text, s: Text, j: nat, u: Text, n: nat)
    requires WellFormed(t) && i < |t.keys| && edge == t.keys[i].prefix && u == edge + s && n == |edge| + j
    requires Parts(t.keys[i], s, j)
    ensures Parts(t, u, n)
  {
    if Has(t.keys[i], s[..j]) {
      ChildHas(t, i, s[..j]);
      TakeBehind(edge, s, j, u, n);
    } else {
      var w :| Has(t.keys[i], w) && Diverge(w, s, j);
      ChildHas(t, i, w);
      DivergeAbove(edge, w, s, j, u, n);
      assert Has(t, edge + w);
    }
  }

  lemma PartsBelow(t: Trie, i: nat, edge: Text, s: Text, j: nat, u: Text, n: nat)
    requires WellFormed(t) && i < |t.keys| && edge == t.keys[i].prefix && u == edge + s && n == |edge| + j
    requires Parts(t, u, n)
    ensures Parts(t.keys[i], s, j)
  {
    if Has(t, u[..n]) {
      TakeBehind(edge, s, j, u, n);
      ChildHas(t, i, s[..j]);
    } else {
      var w :| Has(t, w) && Diverge(w, u, n);
      var v := DivergeBelow(edge, w, s, j, u, n);
      ChildHas(t, i, v);
      assert Has(t.keys[i], v);
    }
  }

  /** Keywords part at every inner node. */
  lemma PartsAtRoot(k: Trie, s: Text)
    requires Dense(k) && s != []
    ensures Parts(k, s, 0)
  {
    if k.value.Some? {
      assert s[..0] == [];
    } else {
      assert Branching(k.keys);
      var m := if k.keys[0].prefix[0] == s[0] then 1 else 0;
      var rest := WordBelow(k.keys[m]);
      ChildHas(k, m, rest);
      assert Diverge(k.keys[m].prefix + rest, s, 0);
    }
  }

  lemma {:induction false} FitHasNoGap(t: Trie, s: Text, a: nat) returns (j: nat)
    requires WellFormed(t) && Compressed(t) && EdgesFit(t) && Has(t, s) && a + 8 < |s|
    ensures a < j <= a + 8 && Parts(t, s, j)
    decreases t
  {
    if i :| 0 <= i < |t.keys| && t.keys[i].prefix <= s {
      var edge := t.keys[i].prefix;
      var rest := s[|edge|..];
      assert s == edge + rest;
      ChildHas(t, i, rest);
      if a < |edge| {
        PartsAtRoot(t.keys[i], rest);
        j := |edge|;
        PartsAbove(t, i, edge, rest, 0, s, j);
      } else {
        var j' := FitHasNoGap(t.keys[i], rest, a - |edge|);
        j := |edge| + j';
        PartsAbove(t, i, edge, rest, j', s, j);
      }
    } else {
      FindAmongMiss(t.keys, s);
    }
  }

  /** Inside an edge, keywords do not part. */
  lemma NoPartInsideEdge(t: Trie, i: nat, s: Text, j: nat)
    requires WellFormed(t) && i < |t.keys| && 0 < j < |t.keys[i].prefix|
    ensures !Parts(t, t.keys[i].prefix + s, j)
  {
    var edge := t.keys[i].prefix;
    assert (edge + s)[..j] == edge[..j] && (edge + s)[j] == edge[j];
    FindAmongAt(t.keys, i, edge[..j]);
    forall w | Has(t, w) ensures !Diverge(w, edge + s, j) {
      if |w| > j && w[..j] == edge[..j] {
        assert w[..j][0] == edge[0];
        SharesEdge(t, i, w);
      }
    }
  }

  lemma ShortEdge(t: Trie, i: nat)
    requires WellFormed(t) && Compressed(t) && NoLongGap(t) && i < |t.keys|
    ensures |t.keys[i].prefix| <= 8
  {
    var edge := t.keys[i].prefix;
    if |edge| > 8 {
      var s := WordBelow(t.keys[i]);
      ChildHas(t, i, s);
      assert PartsWithin(t, edge + s, 0);
      var j: nat :| 0 < j <= 8 && Parts(t, edge + s, j);
      NoPartInsideEdge(t, i, s, j);
    }
  }

  lemma ChildHasNoLongGap(t: Trie, i: nat)
    requires WellFormed(t) && NoLongGap(t) && i < |t.keys|
    ensures NoLongGap(t.keys[i])
  {
    var edge := t.keys[i].prefix;
    forall s, a: nat | Has(t.keys[i], s) && a + 8 < |s| ensures PartsWithin(t.keys[i], s, a) {
      ChildHas(t, i, s);
      assert PartsWithin(t, edge + s, |edge| + a);
      var n: nat :| |edge| + a < n <= |edge| + a + 8 && Parts(t, edge + s, n);
      PartsBelow(t, i, edge, s, n - |edge|, edge + s, n);
    }
  }

  lemma {:induction false} NoGapFits(t: Trie)
    requires WellFormed(t) && Compressed(t) && NoLongGap(t)
    ensures EdgesFit(t)
    decreases t
  {
    forall i | 0 <= i < |t.keys| ensures |t.keys[i].prefix| <= 8 && EdgesFit(t.keys[i]) {
      ShortEdge(t, i);
      ChildHasNoLongGap(t, i);
      NoGapFits(t.keys[i]);
    }
  }

  /** A compressed trie has edges of at most eight characters exactly when its keywords leave
      no gap longer than that. */
  lemma EdgesFitExactly(t: Trie)
    requires WellFormed(t) && Compressed(t)
    ensures EdgesFit(t) <==> NoLongGap(t)
  {
    if EdgesFit(t) {
      forall s, a: nat | Has(t, s) && a + 8 < |s| ensures PartsWithin(t, s, a) {
        var j := FitHasNoGap(t, s, a);
      }
    }
    if NoLongGap(t) {
      NoGapFits(t);
    }
  }

  // ----- Characters -----

  ghost predicate All(p: CodeUnit -> bool, s: Text) {
    forall i :: 0 <= i < |s| ==> p(s[i])
  }

  lemma AllAppend(p: CodeUnit -> bool, a: Text, b: Text)
    ensures All(p, a + b) <==> All(p, a) && All(p, b)
  {
    var s := a + b;
    assert forall i :: 0 <= i < |a| ==> s[i] == a[i];
    assert forall i :: 0 <= i < |b| ==> s[|a| + i] == b[i];
  }

  ghost predicate EdgesOf(t: Trie, p: CodeUnit -> bool)
    decreases t
  {
    forall i :: 0 <= i < |t.keys| ==> All(p, t.keys[i].prefix) && EdgesOf(t.keys[i], p)
  }

  /** Every edge lies on a keyword, so its characters are keyword characters. */
  lemma {:induction false} EdgesLieOnWords(t: Trie, p: CodeUnit -> bool)
    requires WellFormed(t) && Compressed(t)
    requires forall s :: Has(t, s) ==> All(p, s)
    ensures EdgesOf(t, p)
    decreases t
  {
    forall i | 0 <= i < |t.keys| ensures All(p, t.keys[i].prefix) && EdgesOf(t.keys[i], p) {
      var edge := t.keys[i].prefix;
      var s := WordBelow(t.keys[i]);
      ChildHas(t, i, s);
      AllAppend(p, edge, s);
      forall s' | Has(t.keys[i], s') ensures All(p, s') {
        ChildHas(t, i, s');
        AllAppend(p, edge, s');
      }
      EdgesLieOnWords(t.keys[i], p);
    }
  }

  /** Every keyword is made of edges. */
  lemma {:induction false} WordsAreEdges(t: Trie, p: CodeUnit -> bool, s: Text)
    requires WellFormed(t) && EdgesOf(t, p) && Has(t, s)
    ensures All(p, s)
    decreases t
  {
    if s != [] {
      var i := EdgeOfWord(t, s);
      var edge := t.keys[i].prefix;
      WordsAreEdges(t.keys[i], p, s[|edge|..]);
      AllAppend(p, edge, s[|edge|..]);
      assert s == edge + s[|edge|..];
    }
  }

  lemma EdgeOfWord(t: Trie, s: Text) returns (i: nat)
    requires WellFormed(t) && s != [] && Has(t, s)
    ensures i < |t.keys| && t.keys[i].prefix <= s && Has(t.keys[i], s[|t.keys[i].prefix|..])
  {
    if forall k :: 0 <= k < |t.keys| ==> !(t.keys[k].prefix <= s) {
      FindAmongMiss(t.keys, s);
    }
    i :| 0 <= i < |t.keys| && t.keys[i].prefix <= s;
    SharesEdge(t, i, s);
  }

  /** The edges of a compressed trie and its keywords have the same characters. */
  lemma EdgesOfExactly(t: Trie, p: CodeUnit -> bool)
    requires WellFormed(t) && Compressed(t)
    ensures EdgesOf(t, p) <==> forall s :: Has(t, s) ==> All(p, s)
  {
    if EdgesOf(t, p) {
      forall s | Has(t, s) ensures All(p, s) {
        WordsAreEdges(t, p, s);
      }
    }
    if forall s :: Has(t, s) ==> All(p, s) {
      EdgesLieOnWords(t, p);
    }
  }
}
