/** The trie of KeywordLookupGenerator.py: building it from a keyword table and compressing
    its paths.  The dictionary `keys` of a node is always keyed by the prefix of the child it
    maps to, so it is kept as the sequence of the children in insertion order. */
module KeywordTrie {
  import opened Wrappers

  type CodeUnit = c: int | 0 <= c < 0x1_0000
  type Text = seq<CodeUnit>
  type Token = string
  type Entry = (Text, Token)

  /** `fullPrefix`, `selfWeight` and `weight` are the attributes that `fillOut` adds. */
  datatype Trie = Trie(prefix: Text, value: Option<Token>, keys: seq<Trie>,
                       fullPrefix: Text := [], selfWeight: nat := 0, weight: nat := 0)

  // ----- Lookup: the meaning of a trie -----

  /** The value of `s`, read below the prefix of `t`. */
  function Find(t: Trie, s: Text): Option<Token>
    decreases t
  {
    if s == [] then t.value else FindAmong(t.keys, s)
  }

  function FindAmong(keys: seq<Trie>, s: Text): Option<Token>
    decreases keys
  {
    if keys == [] then None
    else if keys[0].prefix <= s then Find(keys[0], s[|keys[0].prefix|..])
    else FindAmong(keys[1..], s)
  }

  /** The value of `s` in `t`, its own prefix included. */
  function FindWhole(t: Trie, s: Text): Option<Token> {
    if t.prefix <= s then Find(t, s[|t.prefix|..]) else None
  }

  /** The keyword table, as a later line overrides an earlier one. */
  function Table(entries: seq<Entry>): map<Text, Token> {
    if entries == [] then map[]
    else var last := entries[|entries| - 1];
         Table(entries[..|entries| - 1])[last.0 := last.1]
  }

  function Lookup(table: map<Text, Token>, s: Text): Option<Token> {
    if s in table then Some(table[s]) else None
  }

  // ----- insert -----

  function Insert(t: Trie, key: Text, value: Token): Trie
    decreases |key|, 0
  {
    if key == [] then t.(value := Some(value))
    else t.(keys := InsertAmong(t.keys, key, value))
  }

  function InsertAmong(keys: seq<Trie>, key: Text, value: Token): seq<Trie>
    requires key != []
    decreases |key| - 1, 1, |keys|
  {
    if keys == [] then [Insert(Trie([key[0]], None, []), key[1..], value)]
    else if keys[0].prefix == [key[0]] then [Insert(keys[0], key[1..], value)] + keys[1..]
    else [keys[0]] + InsertAmong(keys[1..], key, value)
  }

  /** The driver loop over the parsed keyword lines. */
  function Build(entries: seq<Entry>): Trie {
    if entries == [] then Trie([], None, [])
    else var last := entries[|entries| - 1];
         Insert(Build(entries[..|entries| - 1]), last.0, last.1)
  }

  // ----- coalesce -----

  /** `keys[t.prefix] = t`: replaces the child of that key, or appends a new one. */
  function Put(keys: seq<Trie>, t: Trie): seq<Trie> {
    if keys == [] then [t]
    else if keys[0].prefix == t.prefix then [t] + keys[1..]
    else [keys[0]] + Put(keys[1..], t)
  }

  function CoalesceAll(keys: seq<Trie>): seq<Trie>
    decreases keys
  {
    if keys == [] then []
    else Put(CoalesceAll(keys[..|keys| - 1]), Coalesce(keys[|keys| - 1]))
  }

  function Coalesce(t: Trie): Trie
    decreases t
  {
    var keys := CoalesceAll(t.keys);
    if t.value.Some? || |keys| != 1 then t.(keys := keys)
    else Trie(t.prefix + keys[0].prefix, keys[0].value, keys[0].keys)
  }

  /** `trie.coalesce()` on the root: its result is dropped, so the root only gets new keys. */
  function Compress(root: Trie): Trie {
    root.(keys := CoalesceAll(root.keys))
  }

  // ----- Shapes -----

  /** Sibling edges are non-empty and start with different characters. */
  ghost predicate Branching(keys: seq<Trie>) {
    && (forall i :: 0 <= i < |keys| ==> keys[i].prefix != [])
    && (forall i, j :: 0 <= i < j < |keys| ==> keys[i].prefix[0] != keys[j].prefix[0])
  }

  ghost predicate WellFormed(t: Trie)
    decreases t
  {
    Branching(t.keys) && forall i :: 0 <= i < |t.keys| ==> WellFormed(t.keys[i])
  }

  /** Every node below `t` carries a value or has children. */
  ghost predicate Live(t: Trie)
    decreases t
  {
    forall i :: 0 <= i < |t.keys| ==>
      (t.keys[i].value.Some? || t.keys[i].keys != []) && Live(t.keys[i])
  }

  /** The shape that `insert` keeps: one character per edge. */
  ghost predicate CharEdges(t: Trie)
    decreases t
  {
    forall i :: 0 <= i < |t.keys| ==> |t.keys[i].prefix| == 1 && CharEdges(t.keys[i])
  }

  /** Every node below `t` carries a value or branches. */
  ghost predicate Compressed(t: Trie)
    decreases t
  {
    forall i :: 0 <= i < |t.keys| ==>
      (t.keys[i].value.Some? || |t.keys[i].keys| >= 2) && Compressed(t.keys[i])
  }

  // ----- Searching among siblings -----

  lemma {:induction false} FindAmongHit(keys: seq<Trie>, i: nat, s: Text)
    requires Branching(keys) && i < |keys| && keys[i].prefix <= s
    ensures FindAmong(keys, s) == Find(keys[i], s[|keys[i].prefix|..])
    decreases i
  {
    if i > 0 {
      assert keys[0].prefix[0] != keys[i].prefix[0];
      FindAmongHit(keys[1..], i - 1, s);
    }
  }

  lemma {:induction false} FindAmongMiss(keys: seq<Trie>, s: Text)
    requires forall i :: 0 <= i < |keys| ==> !(keys[i].prefix <= s)
    ensures FindAmong(keys, s) == None
    decreases keys
  {
    if keys != [] {
      assert !(keys[0].prefix <= s);
      FindAmongMiss(keys[1..], s);
    }
  }

  /** `k'` can stand for `k` among siblings when `s` is looked up. */
  ghost predicate StandsFor(k': Trie, k: Trie, s: Text) {
    && k.prefix != [] && k'.prefix != [] && k'.prefix[0] == k.prefix[0]
    && FindWhole(k', s) == FindWhole(k, s)
  }

  /** A sibling list may be replaced child by child without changing lookup. */
  lemma FindAmongReplaced(keys: seq<Trie>, keys': seq<Trie>, s: Text)
    requires Branching(keys) && Branching(keys') && |keys'| == |keys|
    requires forall i :: 0 <= i < |keys| ==> StandsFor(keys'[i], keys[i], s)
    ensures FindAmong(keys', s) == FindAmong(keys, s)
  {
    if i :| 0 <= i < |keys| && (keys[i].prefix <= s || keys'[i].prefix <= s) {
      FindAmongAt(keys, i, s);
      FindAmongAt(keys', i, s);
      assert StandsFor(keys'[i], keys[i], s);
    } else {
      FindAmongMiss(keys, s);
      FindAmongMiss(keys', s);
    }
  }

  /** Lookup among siblings is lookup in the one that starts as `s` does. */
  lemma FindAmongAt(keys: seq<Trie>, i: nat, s: Text)
    requires Branching(keys) && i < |keys| && s != [] && keys[i].prefix[0] == s[0]
    ensures FindAmong(keys, s) == FindWhole(keys[i], s)
  {
    if keys[i].prefix <= s {
      FindAmongHit(keys, i, s);
    } else {
      FindAmongMiss(keys, s);
    }
  }

  /** Nor does the order of the siblings matter. */
  lemma FindAmongReordered(keys: seq<Trie>, keys': seq<Trie>, s: Text)
    requires Branching(keys) && Branching(keys')
    requires forall i :: 0 <= i < |keys| ==> keys[i] in keys'
    requires forall i :: 0 <= i < |keys'| ==> keys'[i] in keys
    ensures FindAmong(keys', s) == FindAmong(keys, s)
  {
    if i :| 0 <= i < |keys| && keys[i].prefix <= s {
      FindAmongHit(keys, i, s);
      var j :| 0 <= j < |keys'| && keys'[j] == keys[i];
      FindAmongHit(keys', j, s);
    } else {
      FindAmongMiss(keys, s);
      FindAmongMiss(keys', s);
    }
  }

  // ----- insert meets the table -----

  lemma {:induction false} InsertKeepsShape(t: Trie, key: Text, value: Token)
    requires WellFormed(t) && CharEdges(t) && Live(t)
    ensures var r := Insert(t, key, value);
            WellFormed(r) && CharEdges(r) && Live(r) && r.prefix == t.prefix
            && (r.value.Some? || r.keys != [])
    decreases |key|, 0
  {
    if key != [] {
      assert forall i :: 0 <= i < |t.keys| ==> GoodSibling(t.keys[i]);
      InsertAmongKeepsShape(t.keys, key, value);
      assert forall i :: 0 <= i < |InsertAmong(t.keys, key, value)| ==> GoodSibling(InsertAmong(t.keys, key, value)[i]);
    }
  }

  ghost predicate GoodSiblings(keys: seq<Trie>) {
    Branching(keys) && forall i :: 0 <= i < |keys| ==> GoodSibling(keys[i])
  }

  /** The position of the child with the key `p`, `|keys|` when there is none. */
  function KeyIndex(keys: seq<Trie>, p: Text): (i: nat)
    ensures i <= |keys|
    ensures i < |keys| ==> keys[i].prefix == p
    ensures forall j :: 0 <= j < i ==> keys[j].prefix != p
  {
    if keys == [] || keys[0].prefix == p then 0 else 1 + KeyIndex(keys[1..], p)
  }

  lemma {:induction false} PutAt(keys: seq<Trie>, t: Trie)
    ensures var i := KeyIndex(keys, t.prefix);
            Put(keys, t) == if i < |keys| then keys[i := t] else keys + [t]
  {
    if keys == [] || keys[0].prefix == t.prefix {
    } else {
      PutAt(keys[1..], t);
    }
  }

  lemma {:induction false} InsertAmongAt(keys: seq<Trie>, key: Text, value: Token)
    requires key != []
    ensures var i := KeyIndex(keys, [key[0]]);
            InsertAmong(keys, key, value) ==
            if i < |keys| then keys[i := Insert(keys[i], key[1..], value)]
            else keys + [Insert(Trie([key[0]], None, []), key[1..], value)]
    decreases keys
  {
    if keys != [] && keys[0].prefix != [key[0]] {
      InsertAmongAt(keys[1..], key, value);
      assert keys == [keys[0]] + keys[1..];
    }
  }

  ghost predicate GoodSibling(t: Trie) {
    && |t.prefix| == 1 && WellFormed(t) && CharEdges(t) && Live(t)
    && (t.value.Some? || t.keys != [])
  }

  lemma BranchingUpdate(keys: seq<Trie>, i: nat, t: Trie)
    requires Branching(keys) && i < |keys| && t.prefix == keys[i].prefix
    ensures Branching(keys[i := t])
  {
  }

  lemma BranchingAppend(keys: seq<Trie>, t: Trie)
    requires Branching(keys) && t.prefix != []
    requires forall i :: 0 <= i < |keys| ==> keys[i].prefix[0] != t.prefix[0]
    ensures Branching(keys + [t])
  {
  }

  lemma {:induction false} InsertAmongKeepsShape(keys: seq<Trie>, key: Text, value: Token)
    requires key != [] && GoodSiblings(keys)
    ensures GoodSiblings(InsertAmong(keys, key, value)) && InsertAmong(keys, key, value) != []
    decreases |key| - 1, 1
  {
    InsertAmongAt(keys, key, value);
    var i := KeyIndex(keys, [key[0]]);
    if i < |keys| {
      assert GoodSibling(keys[i]);
      var t := Insert(keys[i], key[1..], value);
      InsertKeepsShape(keys[i], key[1..], value);
      BranchingUpdate(keys, i, t);
      assert GoodSibling(t);
    } else {
      var t := Insert(Trie([key[0]], None, []), key[1..], value);
      InsertKeepsShape(Trie([key[0]], None, []), key[1..], value);
      forall j | 0 <= j < |keys| ensures keys[j].prefix[0] != t.prefix[0] {
        assert GoodSibling(keys[j]) && keys[j].prefix != [key[0]];
        assert keys[j].prefix == [keys[j].prefix[0]];
      }
      BranchingAppend(keys, t);
      assert GoodSibling(t);
    }
  }

  /** `insert` changes the value of the inserted key and of no other. */
  lemma {:induction false} FindInsert(t: Trie, key: Text, value: Token, s: Text)
    requires WellFormed(t) && CharEdges(t)
    ensures Find(Insert(t, key, value), s) == if s == key then Some(value) else Find(t, s)
    decreases |key|, 0
  {
    if key != [] && s != [] {
      FindInsertAmong(t.keys, key, value, s);
    }
  }

  lemma {:induction false} FindInsertAmong(keys: seq<Trie>, key: Text, value: Token, s: Text)
    requires key != [] && s != []
    requires Branching(keys)
    requires forall i :: 0 <= i < |keys| ==> |keys[i].prefix| == 1 && WellFormed(keys[i]) && CharEdges(keys[i])
    ensures FindAmong(InsertAmong(keys, key, value), s) == if s == key then Some(value) else FindAmong(keys, s)
    decreases |key| - 1, 1, |keys|
  {
    assert s == [s[0]] + s[1..] && key == [key[0]] + key[1..];
    if keys == [] {
      FindInsert(Trie([key[0]], None, []), key[1..], value, s[1..]);
    } else if keys[0].prefix == [key[0]] {
      FindInsert(keys[0], key[1..], value, s[1..]);
      assert Insert(keys[0], key[1..], value).prefix == keys[0].prefix;
      assert ([Insert(keys[0], key[1..], value)] + keys[1..])[1..] == keys[1..];
      if s[0] == key[0] {
        assert keys[0].prefix <= s;
      } else {
        assert !(keys[0].prefix <= s);
      }
    } else {
      FindInsertAmong(keys[1..], key, value, s);
      assert ([keys[0]] + InsertAmong(keys[1..], key, value))[1..] == InsertAmong(keys[1..], key, value);
      assert keys[0].prefix <= s ==> s[0] != key[0];
    }
  }

  /** Building the trie gives exactly the table: the last value inserted for a key wins. */
  lemma {:induction false} BuildMeetsTable(entries: seq<Entry>)
    ensures var t := Build(entries);
            WellFormed(t) && CharEdges(t) && Live(t) && t.prefix == []
    ensures forall s :: Find(Build(entries), s) == Lookup(Table(entries), s)
  {
    if entries == [] {
    } else {
      var init, last := entries[..|entries| - 1], entries[|entries| - 1];
      BuildMeetsTable(init);
      InsertKeepsShape(Build(init), last.0, last.1);
      forall s ensures Find(Build(entries), s) == Lookup(Table(entries), s) {
        FindInsert(Build(init), last.0, last.1, s);
      }
    }
  }
}
