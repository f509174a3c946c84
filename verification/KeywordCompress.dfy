/** Path compression (`coalesce`) keeps the meaning of a keyword trie, never loses a child when
    it re-keys the dictionary, and leaves at most 2n - 1 nodes below the root for n keywords. */
module KeywordCompress {
  import opened Wrappers
  import opened KeywordTrie

  // ----- Re-keying -----

  lemma CoalesceExtendsPrefix(t: Trie)
    ensures t.prefix <= Coalesce(t).prefix
  {
  }

  lemma {:induction false} PutNew(keys: seq<Trie>, t: Trie)
    requires forall i :: 0 <= i < |keys| ==> keys[i].prefix != t.prefix
    ensures Put(keys, t) == keys + [t]
  {
    if keys != [] {
      PutNew(keys[1..], t);
    }
  }

  /** No two children collide on their new keys: every child is kept, in its place. */
  lemma {:induction false} RekeyingKeepsEveryChild(keys: seq<Trie>)
    requires Branching(keys)
    ensures |CoalesceAll(keys)| == |keys|
    ensures forall i :: 0 <= i < |keys| ==> CoalesceAll(keys)[i] == Coalesce(keys[i])
    ensures forall i :: 0 <= i < |keys| ==> keys[i].prefix <= CoalesceAll(keys)[i].prefix
    ensures Branching(CoalesceAll(keys))
    decreases |keys|
  {
    if keys != [] {
      var n := |keys| - 1;
      RekeyingKeepsEveryChild(keys[..n]);
      CoalesceExtendsPrefix(keys[n]);
      var init, last := CoalesceAll(keys[..n]), Coalesce(keys[n]);
      forall i | 0 <= i < n ensures init[i].prefix[0] != last.prefix[0] {
        assert keys[..n][i] == keys[i] && keys[i].prefix[0] != keys[n].prefix[0];
      }
      PutNew(init, last);
      BranchingAppend(init, last);
    }
  }

  // ----- Meaning and shape -----

  lemma {:induction false} CoalesceMeaning(t: Trie, s: Text)
    requires WellFormed(t)
    ensures FindWhole(Coalesce(t), s) == FindWhole(t, s)
    decreases t
  {
    RekeyingKeepsEveryChild(t.keys);
    var keys := CoalesceAll(t.keys);
    if t.prefix <= s {
      var rest := s[|t.prefix|..];
      CoalesceAllMeaning(t.keys, rest);
      if t.value.None? && |keys| == 1 {
        var merged := Coalesce(t);
        if merged.prefix <= s {
          assert s == merged.prefix + s[|merged.prefix|..];
          assert rest == keys[0].prefix + s[|merged.prefix|..];
          assert FindWhole(merged, s) == Find(keys[0], s[|merged.prefix|..]);
        } else {
          assert !(keys[0].prefix <= rest);
        }
      }
    } else {
      CoalesceExtendsPrefix(t);
    }
  }

  lemma {:induction false} CoalesceAllMeaning(keys: seq<Trie>, s: Text)
    requires Branching(keys) && forall i :: 0 <= i < |keys| ==> WellFormed(keys[i])
    ensures FindAmong(CoalesceAll(keys), s) == FindAmong(keys, s)
    decreases keys
  {
    RekeyingKeepsEveryChild(keys);
    var keys' := CoalesceAll(keys);
    forall i | 0 <= i < |keys|
      ensures StandsFor(keys'[i], keys[i], s)
    {
      CoalesceMeaning(keys[i], s);
    }
    FindAmongReplaced(keys, keys', s);
  }

  lemma {:induction false} CoalesceShape(t: Trie)
    requires WellFormed(t) && Live(t)
    ensures WellFormed(Coalesce(t)) && Compressed(Coalesce(t))
    ensures t.value.Some? || t.keys != [] ==> Coalesce(t).value.Some? || |Coalesce(t).keys| >= 2
    decreases t
  {
    RekeyingKeepsEveryChild(t.keys);
    forall i | 0 <= i < |t.keys|
      ensures var k := CoalesceAll(t.keys)[i];
              WellFormed(k) && Compressed(k) && (k.value.Some? || |k.keys| >= 2)
    {
      CoalesceShape(t.keys[i]);
    }
  }

  /** Compressing the root's subtrees preserves the value of every key, keeps siblings apart by
      their first character and leaves only nodes that carry a value or branch. */
  lemma CompressMeaning(root: Trie)
    requires WellFormed(root) && Live(root)
    ensures forall s :: Find(Compress(root), s) == Find(root, s)
    ensures WellFormed(Compress(root)) && Compressed(Compress(root))
    ensures Compress(root).prefix == root.prefix
  {
    forall s ensures Find(Compress(root), s) == Find(root, s) {
      CoalesceAllMeaning(root.keys, s);
    }
    RekeyingKeepsEveryChild(root.keys);
    forall i | 0 <= i < |root.keys|
      ensures var k := CoalesceAll(root.keys)[i];
              WellFormed(k) && Compressed(k) && (k.value.Some? || |k.keys| >= 2)
    {
      CoalesceShape(root.keys[i]);
    }
  }

  // ----- Size -----

  function NodesAmong(keys: seq<Trie>): nat
    decreases keys
  {
    if keys == [] then 0 else 1 + NodesAmong(keys[0].keys) + NodesAmong(keys[1..])
  }

  function ValuesAmong(keys: seq<Trie>): nat
    decreases keys
  {
    if keys == [] then 0
    else (if keys[0].value.Some? then 1 else 0) + ValuesAmong(keys[0].keys) + ValuesAmong(keys[1..])
  }

  ghost predicate CompressedAmong(keys: seq<Trie>) {
    forall i :: 0 <= i < |keys| ==> (keys[i].value.Some? || |keys[i].keys| >= 2) && Compressed(keys[i])
  }

  lemma {:induction false} FewNodes(keys: seq<Trie>)
    requires CompressedAmong(keys)
    ensures NodesAmong(keys) + |keys| <= 2 * ValuesAmong(keys)
    decreases keys
  {
    if keys != [] {
      FewNodes(keys[0].keys);
      FewNodes(keys[1..]);
    }
  }

  function Under(p: Text, words: set<Text>): set<Text> {
    set w | w in words :: p + w
  }

  /** The keys that have a value among `keys`. */
  function Words(keys: seq<Trie>): set<Text>
    decreases keys
  {
    if keys == [] then {}
    else (if keys[0].value.Some? then {keys[0].prefix} else {})
         + Under(keys[0].prefix, Words(keys[0].keys)) + Words(keys[1..])
  }

  ghost predicate WellFormedAmong(keys: seq<Trie>) {
    Branching(keys) && forall i :: 0 <= i < |keys| ==> WellFormed(keys[i])
  }

  lemma {:induction false} WordsAreFound(keys: seq<Trie>, w: Text)
    requires WellFormedAmong(keys)
    ensures w in Words(keys) <==> w != [] && FindAmong(keys, w).Some?
    ensures w in Words(keys) ==> exists i :: 0 <= i < |keys| && keys[i].prefix <= w
    decreases keys
  {
    if keys != [] {
      var k := keys[0];
      WordsAreFound(keys[1..], w);
      if k.prefix <= w {
        var rest := w[|k.prefix|..];
        assert w == k.prefix + rest;
        WordsAreFound(k.keys, rest);
        forall v | w == k.prefix + v ensures v == rest {
          assert v == (k.prefix + v)[|k.prefix|..];
        }
        assert w in Under(k.prefix, Words(k.keys)) <==> rest in Words(k.keys);
        assert w == k.prefix <==> rest == [];
        forall i | 0 <= i < |keys[1..]| ensures !(keys[1..][i].prefix <= w) {
          assert keys[i + 1].prefix[0] != k.prefix[0];
        }
      } else {
        assert forall v :: w != k.prefix + v;
        assert w in Words(keys) <==> w in Words(keys[1..]);
        if w in Words(keys[1..]) {
          var i :| 0 <= i < |keys[1..]| && keys[1..][i].prefix <= w;
          assert keys[i + 1].prefix <= w;
        }
      }
    }
  }

  lemma {:induction false} UnderSize(p: Text, words: set<Text>)
    ensures |Under(p, words)| == |words|
    decreases |words|
  {
    if words != {} {
      var w :| w in words;
      UnderSize(p, words - {w});
      assert forall v: Text :: p + v == p + w ==> v == w by {
        forall v: Text | p + v == p + w ensures v == w {
          assert v == (p + v)[|p|..] && w == (p + w)[|p|..];
        }
      }
      assert Under(p, words) == Under(p, words - {w}) + {p + w};
    }
  }

  lemma WordsApart(keys: seq<Trie>)
    requires WellFormedAmong(keys) && keys != []
    ensures keys[0].prefix !in Under(keys[0].prefix, Words(keys[0].keys))
    ensures keys[0].prefix !in Words(keys[1..])
    ensures Under(keys[0].prefix, Words(keys[0].keys)) !! Words(keys[1..])
  {
    var k := keys[0];
    forall w | w in Under(k.prefix, Words(k.keys)) ensures w != k.prefix && k.prefix <= w {
      var v :| v in Words(k.keys) && w == k.prefix + v;
      WordsAreFound(k.keys, v);
    }
    forall w | w in Words(keys[1..]) ensures !(k.prefix <= w) {
      WordsAreFound(keys[1..], w);
      var i :| 0 <= i < |keys[1..]| && keys[1..][i].prefix <= w;
      assert keys[i + 1].prefix[0] == w[0] != k.prefix[0];
    }
  }

  lemma {:induction false} WordsSize(keys: seq<Trie>)
    requires WellFormedAmong(keys)
    ensures |Words(keys)| == ValuesAmong(keys)
    decreases keys
  {
    if keys != [] {
      var k := keys[0];
      WordsSize(k.keys);
      WordsSize(keys[1..]);
      UnderSize(k.prefix, Words(k.keys));
      WordsApart(keys);
      var own: set<Text> := if k.value.Some? then {k.prefix} else {};
      var below, others := Under(k.prefix, Words(k.keys)), Words(keys[1..]);
      assert own !! below && (own + below) !! others;
      assert |own + below + others| == |own| + |below| + |others|;
    }
  }

  /** The compressed trie of a table with n non-empty keywords has at most 2n - 1 nodes below
      its root when n > 0, and none when n = 0. */
  lemma CompressedSize(entries: seq<Entry>)
    ensures var n := |Table(entries).Keys - {[]}|;
            NodesAmong(Compress(Build(entries)).keys) <= if n == 0 then 0 else 2 * n - 1
  {
    BuildMeetsTable(entries);
    CompressMeaning(Build(entries));
    var keys := Compress(Build(entries)).keys;
    FewNodes(keys);
    WordsSize(keys);
    forall w ensures w in Words(keys) <==> w in Table(entries).Keys - {[]} {
      WordsAreFound(keys, w);
      assert w != [] ==> Find(Compress(Build(entries)), w) == Lookup(Table(entries), w);
    }
    assert Words(keys) == Table(entries).Keys - {[]};
  }
}
