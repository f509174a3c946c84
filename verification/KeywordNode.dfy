/** The generator's `Trie` objects, whose methods update them in place.  Each object carries the
    value of the trie it stands for, and each method is proved against the pass on values. */
module KeywordNode {
  import opened Wrappers
  import opened KeywordTrie
  import opened KeywordWeights
  import opened KeywordCode
  import KeywordCompiler

  /** The nodes stand for the tries `models`, in separate parts of `region`. */
  ghost predicate StandFor(nodes: seq<TrieNode>, models: seq<Trie>, region: set<object>)
    reads region
    decreases region, 1
  {
    && |nodes| == |models|
    && (forall i :: 0 <= i < |nodes| ==>
          nodes[i] in region && nodes[i].Repr <= region && nodes[i].Valid() && nodes[i].model == models[i])
    && (forall i, j :: 0 <= i < j < |nodes| ==> nodes[i].Repr !! nodes[j].Repr)
  }

  class TrieNode {
    var prefix: Text
    var value: Option<Token>
    var keys: seq<TrieNode>
    var fullPrefix: Text
    var selfWeight: nat
    var weight: nat

    ghost var model: Trie
    ghost var Repr: set<object>

    ghost predicate Valid()
      reads this, Repr
      ensures Valid() ==> this in Repr
      decreases Repr, 0
    {
      && this in Repr
      && model == Trie(prefix, value, model.keys, fullPrefix, selfWeight, weight)
      && StandFor(keys, model.keys, Repr - {this})
    }

    constructor (prefix: Text)
      ensures Valid() && fresh(Repr) && model == Trie(prefix, None, [])
    {
      this.prefix, value, keys := prefix, None, [];
      fullPrefix, selfWeight, weight := [], 0, 0;
      model := Trie(prefix, None, []);
      Repr := {this};
    }

    // ----- insert -----

    method Insert(key: Text, value: Token)
      requires Valid()
      modifies Repr
      ensures Valid() && fresh(Repr - old(Repr))
      ensures model == KeywordTrie.Insert(old(model), key, value)
      decreases |key|, 0
    {
      if key == [] {
        this.value := Some(value);
        model := model.(value := Some(value));
      } else {
        InsertAmongAt(model.keys, key, value);
        var i := IndexOf(keys, [key[0]], model.keys, Repr - {this});
        if i == |keys| {
          AddKey([key[0]]);
        }
        InsertBelow(i, key[1..], value);
      }
    }

    method AddKey(prefix: Text)
      requires Valid()
      modifies this
      ensures Valid() && fresh(Repr - old(Repr))
      ensures model == old(model).(keys := old(model).keys + [Trie(prefix, None, [])])
      ensures |keys| == old(|keys|) + 1
    {
      var child := new TrieNode(prefix);
      keys := keys + [child];
      model := model.(keys := model.keys + [child.model]);
      Repr := Repr + child.Repr;
    }

    method InsertBelow(i: nat, key: Text, value: Token)
      requires Valid() && i < |model.keys|
      modifies Repr
      ensures Valid() && fresh(Repr - old(Repr))
      ensures model == old(model).(keys := old(model).keys[i := KeywordTrie.Insert(old(model).keys[i], key, value)])
      decreases |key|, 1
    {
      var child := keys[i];
      child.Insert(key, value);
      model := model.(keys := model.keys[i := child.model]);
      Repr := Repr + child.Repr;
    }

    // ----- coalesce -----

    method Coalesce() returns (res: TrieNode)
      requires Valid()
      modifies Repr
      ensures Valid() && fresh(Repr - old(Repr))
      ensures model == old(model).(keys := CoalesceAll(old(model).keys))
      ensures res.Valid() && fresh(res.Repr - old(Repr))
      ensures res.model == KeywordTrie.Coalesce(old(model))
      decreases Repr
    {
      var coalesced, region := CoalesceKeys();
      ReplaceKeys(coalesced, CoalesceAll(model.keys), region);
      if value.Some? || |keys| != 1 {
        res := this;
      } else {
        res := new TrieNode.Merged(prefix, keys[0]);
      }
    }

    method ReplaceKeys(nodes: seq<TrieNode>, ghost models: seq<Trie>, ghost region: set<object>)
      requires StandFor(nodes, models, region) && this !in region
      requires model == Trie(prefix, value, model.keys, fullPrefix, selfWeight, weight)
      modifies this
      ensures Valid() && Repr == {this} + region && keys == nodes
      ensures model == old(model).(keys := models) && value == old(value) && prefix == old(prefix)
    {
      keys := nodes;
      model := model.(keys := models);
      Repr := {this} + region;
      assert Repr - {this} == region;
    }

    method CoalesceKeys() returns (coalesced: seq<TrieNode>, ghost region: set<object>)
      requires Valid()
      modifies Repr - {this}
      ensures StandFor(coalesced, CoalesceAll(model.keys), region)
      ensures this !in region && fresh(region - old(Repr))
      decreases Repr, 0
    {
      coalesced, region := [], {};
      var i := 0;
      ghost var rest := Repr - {this};
      while i < |keys|
        invariant i <= |keys|
        invariant StandFor(coalesced, CoalesceAll(model.keys[..i]), region)
        invariant StandFor(keys[i..], model.keys[i..], rest)
        invariant rest <= Repr - {this} && rest !! region
        invariant this !in region && fresh(region - old(Repr))
      {
        var child := keys[i..][0];
        ghost var own, others := child.Repr, rest - child.Repr;
        TailStandsFor(keys[i..], model.keys[i..], rest);
        var t := child.Coalesce();
        assert model.keys[..i + 1][..i] == model.keys[..i];
        assert keys[i..][1..] == keys[i + 1..] && model.keys[i..][1..] == model.keys[i + 1..];
        coalesced := PutNode(coalesced, t, CoalesceAll(model.keys[..i]), region);
        region, rest := region + t.Repr, others;
        i := i + 1;
      }
      assert model.keys[..|keys|] == model.keys;
    }

    /** A node that takes over the value and the children of `suffix`. */
    constructor Merged(prefix: Text, suffix: TrieNode)
      requires suffix.Valid()
      ensures Valid() && Repr == {this} + suffix.Repr
      ensures model == Trie(prefix + suffix.model.prefix, suffix.model.value, suffix.model.keys)
    {
      this.prefix, value, keys := prefix + suffix.prefix, suffix.value, suffix.keys;
      fullPrefix, selfWeight, weight := [], 0, 0;
      model := Trie(prefix + suffix.prefix, suffix.value, suffix.model.keys);
      Repr := {this} + suffix.Repr;
      new;
      WiderRegion(suffix.keys, suffix.model.keys, suffix.Repr - {suffix}, Repr - {this});
    }

    // ----- fillOut -----

    method FillOut(prefix: Text, weights: Weights)
      requires Valid()
      modifies Repr
      ensures Valid() && Repr == old(Repr)
      ensures model == KeywordWeights.FillOut(old(model), prefix, weights)
      decreases Repr, 0
    {
      var full := prefix + this.prefix;
      var self := if full in weights then weights[full] else 0;
      ghost var filled := FillOutAll(model.keys, full, weights);
      var total := FillKeys(keys, full, weights, model.keys, Repr - {this});
      var sorted := SortNodes(keys, filled, Repr - {this});
      Annotate(full, self, sorted, self + total, SortByWeight(filled));
    }

    method Annotate(full: Text, self: nat, keys: seq<TrieNode>, weight: nat, ghost models: seq<Trie>)
      requires this in Repr && StandFor(keys, models, Repr - {this})
      modifies this
      ensures Valid() && Repr == old(Repr)
      ensures model == Trie(old(this.prefix), old(value), models, full, self, weight)
    {
      fullPrefix, selfWeight, this.keys, this.weight := full, self, keys, weight;
      model := Trie(prefix, value, models, full, self, weight);
    }

    // ----- printing -----

    method PrintSubTreeAsC() returns (lines: seq<Line>)
      requires Valid() && Annotated(model)
      ensures lines == Emit(model)
      decreases Repr
    {
      lines := if value.Some? then [Accept(|fullPrefix|, fullPrefix, value.value)] else [];
      var itemCount := 0;
      while itemCount < |keys|
        invariant itemCount <= |keys|
        invariant lines + EmitArms(model.keys, itemCount, fullPrefix) == Emit(model)
      {
        var child := keys[itemCount];
        assert child.Valid() && child.model == model.keys[itemCount];
        var baseIndex, k := |fullPrefix|, child.prefix;
        if baseIndex > 0 && |k| == 3 {
          baseIndex := baseIndex - 1;
          k := [child.fullPrefix[baseIndex]] + k;
        }
        var line := if itemCount == 0 then If(baseIndex, k) else ElseIf(baseIndex, k);
        assert line == ArmLine(child.model, itemCount, fullPrefix);
        var body := child.PrintSubTreeAsC();
        AppendArm(lines, model.keys, itemCount, fullPrefix);
        itemCount := itemCount + 1;
        lines := lines + [line] + body + (if itemCount == |keys| then [End] else []);
      }
      assert lines + [] == lines;
    }

    method MaxLength() returns (max: nat)
      requires Valid()
      ensures max == KeywordCode.MaxLength(model)
      decreases Repr
    {
      max := |fullPrefix|;
      var i := 0;
      while i < |keys|
        invariant i <= |keys| && MaxLengthAmong(model.keys[i..], max) == KeywordCode.MaxLength(model)
      {
        assert model.keys[i..][0] == keys[i].model && model.keys[i..][1..] == model.keys[i + 1..];
        var l := keys[i].MaxLength();
        if l > max {
          max := l;
        }
        i := i + 1;
      }
    }
  }

  lemma AppendArm(lines: seq<Line>, keys: seq<Trie>, i: nat, root: Text)
    requires i < |keys| && AnnotatedAmong(keys, root)
    ensures lines + EmitArms(keys, i, root) ==
            lines + [ArmLine(keys[i], i, root)] + Emit(keys[i]) + (if i + 1 == |keys| then [End] else [])
            + EmitArms(keys, i + 1, root)
  {
  }

  /** The first `i` of `filled` and the others of `models`. */
  ghost predicate FilledUpTo(current: seq<Trie>, filled: seq<Trie>, models: seq<Trie>, i: nat) {
    && |current| == |filled| == |models| && i <= |models|
    && (forall j :: 0 <= j < i ==> current[j] == filled[j])
    && forall j :: i <= j < |models| ==> current[j] == models[j]
  }

  lemma OneMoreWeight(filled: seq<Trie>, i: nat)
    requires i < |filled|
    ensures TotalWeight(filled[..i + 1]) == TotalWeight(filled[..i]) + filled[i].weight
  {
    assert filled[..i + 1] == filled[..i] + [filled[i]];
    TotalWeightAppend(filled[..i], [filled[i]]);
  }

  lemma AllFilled(current: seq<Trie>, filled: seq<Trie>, models: seq<Trie>, i: nat)
    requires FilledUpTo(current, filled, models, i) && i == |models|
    ensures current == filled && filled[..i] == filled
  {
  }

  /** Fills out every node and adds their weights up. */
  method FillKeys(
    nodes: seq<TrieNode>, prefix: Text, weights: Weights, ghost models: seq<Trie>, ghost region: set<object>)
    returns (total: nat)
    requires StandFor(nodes, models, region)
    modifies region
    ensures StandFor(nodes, FillOutAll(models, prefix, weights), region)
    ensures total == TotalWeight(FillOutAll(models, prefix, weights))
    decreases region, 3
  {
    FillOutAllAt(models, prefix, weights);
    total := FillInto(nodes, prefix, weights, FillOutAll(models, prefix, weights), models, region);
  }

  method FillInto(
    nodes: seq<TrieNode>, prefix: Text, weights: Weights,
    ghost filled: seq<Trie>, ghost models: seq<Trie>, ghost region: set<object>)
    returns (total: nat)
    requires StandFor(nodes, models, region) && |filled| == |models|
    requires forall i :: 0 <= i < |models| ==> filled[i] == FillOut(models[i], prefix, weights)
    modifies region
    ensures StandFor(nodes, filled, region) && total == TotalWeight(filled)
    decreases region, 2
  {
    total := 0;
    ghost var current := models;
    var i := 0;
    while i < |nodes|
      invariant FilledUpTo(current, filled, models, i) && total == TotalWeight(filled[..i])
      invariant StandFor(nodes, current, region)
    {
      OneMoreWeight(filled, i);
      FillNode(nodes, i, prefix, weights, filled[i], current, region);
      current := current[i := filled[i]];
      total := total + nodes[i].weight;
      i := i + 1;
    }
    AllFilled(current, filled, models, i);
  }

  method FillNode(
    nodes: seq<TrieNode>, i: nat, prefix: Text, weights: Weights,
    ghost filled: Trie, ghost models: seq<Trie>, ghost region: set<object>)
    requires StandFor(nodes, models, region) && i < |nodes| && filled == FillOut(models[i], prefix, weights)
    modifies region
    ensures StandFor(nodes, models[i := filled], region) && nodes[i].weight == filled.weight
    decreases region, 1
  {
    nodes[i].FillOut(prefix, weights);
  }

  /** Python's `sorted` by decreasing weight. */
  method SortNodes(nodes: seq<TrieNode>, ghost models: seq<Trie>, ghost region: set<object>) returns (r: seq<TrieNode>)
    requires StandFor(nodes, models, region)
    ensures StandFor(r, SortByWeight(models), region)
  {
    r := [];
    var i := 0;
    ghost var done, rest := {}, region;
    while i < |nodes|
      invariant i <= |nodes| && StandFor(r, SortByWeight(models[..i]), done)
      invariant StandFor(nodes[i..], models[i..], rest)
      invariant done <= region && rest <= region && done !! rest
    {
      TailStandsFor(nodes[i..], models[i..], rest);
      var t := nodes[i..][0];
      assert nodes[i..][1..] == nodes[i + 1..] && models[i..][1..] == models[i + 1..];
      assert models[..i + 1][..i] == models[..i] && models[..i + 1][i] == models[i..][0] == t.model;
      r := InsertNode(r, t, SortByWeight(models[..i]), done);
      done, rest := done + t.Repr, rest - t.Repr;
      i := i + 1;
    }
    assert models[..i] == models;
    WiderRegion(r, SortByWeight(models), done, region);
  }

  method InsertNode(nodes: seq<TrieNode>, t: TrieNode, ghost models: seq<Trie>, ghost region: set<object>)
    returns (r: seq<TrieNode>)
    requires StandFor(nodes, models, region) && t.Valid() && t.Repr !! region
    ensures StandFor(r, InsertByWeight(models, t.model), region + t.Repr)
  {
    var i := 0;
    while i < |nodes| && nodes[i].weight >= t.weight
      invariant i <= |nodes| && RankOf(models, t.weight) == i + RankOf(models[i..], t.weight)
    {
      assert models[i..][0] == nodes[i].model && models[i..][1..] == models[i + 1..];
      i := i + 1;
    }
    if i < |nodes| {
      assert models[i..][0] == nodes[i].model;
    }
    r := nodes[..i] + [t] + nodes[i..];
    InsertStandsFor(nodes, i, t, models, region);
  }

  lemma InsertStandsFor(nodes: seq<TrieNode>, i: nat, t: TrieNode, models: seq<Trie>, region: set<object>)
    requires StandFor(nodes, models, region) && t.Valid() && t.Repr !! region && i <= |nodes|
    ensures StandFor(nodes[..i] + [t] + nodes[i..], models[..i] + [t.model] + models[i..], region + t.Repr)
  {
  }

  /** The script: read the table into a trie, coalesce it, fill it out and print the code. */
  method GenerateLookup(entries: seq<Entry>, weights: Weights) returns (lines: seq<Line>, maxTokenLength: nat)
    ensures lines == KeywordCompiler.Program(entries, weights)
    ensures maxTokenLength == MaxTokenLength(KeywordCompiler.Generate(entries, weights))
  {
    var trie := new TrieNode([]);
    var i := 0;
    while i < |entries|
      invariant i <= |entries| && trie.Valid() && fresh(trie.Repr)
      invariant trie.model == Build(entries[..i])
    {
      trie.Insert(entries[i].0, entries[i].1);
      assert entries[..i + 1][..i] == entries[..i];
      i := i + 1;
    }
    assert entries[..i] == entries;
    var _ := trie.Coalesce();
    trie.FillOut([], weights);
    KeywordCompiler.GenerateShape(entries, weights);
    var length := trie.MaxLength();
    maxTokenLength := length + 1;
    lines := trie.PrintSubTreeAsC();
  }

  lemma WiderRegion(nodes: seq<TrieNode>, models: seq<Trie>, region: set<object>, region': set<object>)
    requires StandFor(nodes, models, region) && region <= region'
    ensures StandFor(nodes, models, region')
  {
  }

  lemma TailStandsFor(nodes: seq<TrieNode>, models: seq<Trie>, region: set<object>)
    requires StandFor(nodes, models, region) && nodes != []
    ensures StandFor(nodes[1..], models[1..], region - nodes[0].Repr)
  {
  }

  /** The position of the node with the key `p`, the number of nodes if there is none. */
  method IndexOf(nodes: seq<TrieNode>, p: Text, ghost models: seq<Trie>, ghost region: set<object>) returns (i: nat)
    requires StandFor(nodes, models, region)
    ensures i == KeyIndex(models, p)
  {
    i := 0;
    while i < |nodes| && nodes[i].prefix != p
      invariant i <= |nodes| && KeyIndex(models, p) == i + KeyIndex(models[i..], p)
    {
      assert models[i..][0] == nodes[i].model && models[i..][1..] == models[i + 1..];
      i := i + 1;
    }
    if i < |nodes| {
      assert models[i..][0] == nodes[i].model;
    }
  }

  /** The dictionary update `keys[t.prefix] = t`. */
  method PutNode(nodes: seq<TrieNode>, t: TrieNode, ghost models: seq<Trie>, ghost region: set<object>)
    returns (r: seq<TrieNode>)
    requires StandFor(nodes, models, region) && t.Valid() && t.Repr !! region
    ensures StandFor(r, Put(models, t.model), region + t.Repr)
  {
    PutAt(models, t.model);
    var i := IndexOf(nodes, t.prefix, models, region);
    r := if i < |nodes| then nodes[i := t] else nodes + [t];
  }
}
