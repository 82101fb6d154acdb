/** Projecting the output of a projection again through the same rules gives
    the same output, provided no two sibling rules share a key. With a
    repeated key the second rule re-reads the first one's output, and the
    result changes (`RepeatedKeysBreakIdempotence`). */
module Idempotence {
  import opened Yaml
  import opened Projection
  import ProjectionLemmas

  /** The rules selected from a prefix of `rules` are a prefix of those
      selected from all of them. */
  lemma {:induction false} SelectedPrefix(rules: seq<Rule>, keys: seq<string>, m: nat)
    requires m <= |rules|
    ensures |Selected(rules[..m], keys)| <= |Selected(rules, keys)|
    ensures Selected(rules, keys)[..|Selected(rules[..m], keys)|] == Selected(rules[..m], keys)
  {
    if m == |rules| {
      assert rules[..m] == rules;
    } else {
      var init := rules[..|rules| - 1];
      assert init[..m] == rules[..m];
      SelectedPrefix(init, keys, m);
    }
  }

  /** Rules with pairwise distinct keys select rules with pairwise distinct keys. */
  lemma {:induction false} SelectedKeysUnique(rules: seq<Rule>, keys: seq<string>)
    requires forall i, j :: 0 <= i < j < |rules| ==> rules[i].key != rules[j].key
    ensures Unique(RuleKeys(Selected(rules, keys)))
  {
    if rules != [] {
      var init, last := rules[..|rules| - 1], rules[|rules| - 1];
      assert forall i :: 0 <= i < |init| ==> init[i] == rules[i];
      SelectedKeysUnique(init, keys);
      var before := Selected(init, keys);
      forall p | 0 <= p < |before| ensures before[p].key != last.key {
        assert before[p] in init;
      }
    }
  }

  /** Every selected key occurs in `keys`. */
  lemma SelectedKeysPresent(rules: seq<Rule>, keys: seq<string>, key: string)
    requires key !in keys
    ensures key !in RuleKeys(Selected(rules, keys))
  {
    var sel := Selected(rules, keys);
    forall p | 0 <= p < |sel| ensures RuleKeys(sel)[p] != key {
      assert sel[p] in sel;
    }
  }

  /** In a sequence without repetitions, the first occurrence is the only one. */
  lemma IndexOfUnique(keys: seq<string>, key: string, q: nat)
    requires Unique(keys) && q < |keys| && keys[q] == key
    ensures IndexOf(keys, key) == q
  {
  }

  /** The rule at position `m - 1`, when its key is present, is the selected
      rule right after those selected from the rules before it. */
  lemma SelectedAt(rules: seq<Rule>, keys: seq<string>, m: nat)
    requires 0 < m <= |rules| && rules[m - 1].key in keys
    ensures |Selected(rules[..m - 1], keys)| < |Selected(rules, keys)|
    ensures Selected(rules, keys)[|Selected(rules[..m - 1], keys)|] == rules[m - 1]
  {
    assert rules[..m][..m - 1] == rules[..m - 1];
    SelectedPrefix(rules, keys, m);
  }

  /** With distinct sibling keys, the key of the `a`-th output pair is found
      in the output at that very pair. */
  lemma FoundAtOwnPair(rules: seq<Rule>, content: seq<Node>, out: seq<Node>, a: nat)
    requires DistinctKeys(rules)
    requires ProjectPairs(rules, content) == Ok(out)
    requires a < |Selected(rules, Keys(content))|
    ensures Scan(out, Selected(rules, Keys(content))[a].key, 0) == Found(2 * a)
  {
    var key := Selected(rules, Keys(content))[a].key;
    ProjectionLemmas.PairsKeyOrder(rules, content, out);
    SelectedKeysUnique(rules, Keys(content));
    IndexOfUnique(Keys(out), key, a);
    ProjectionLemmas.ScanFindsKey(out, key);
  }

  /** Re-projecting rule `m - 1`, whose key is present, on the output gives
      back the output pair it produced. */
  lemma {:induction false} ReprojectPresent(rules: seq<Rule>, content: seq<Node>, out: seq<Node>, m: nat)
    requires DistinctKeys(rules)
    requires ProjectPairs(rules, content) == Ok(out)
    requires 0 < m <= |rules| && rules[m - 1].key in Keys(content)
    ensures var a := |Selected(rules[..m - 1], Keys(content))|;
      2 * a + 2 <= |out| && ProjectRule(rules[m - 1], out) == Ok([out[2 * a], out[2 * a + 1]])
    decreases rules, 0, 0, 0
  {
    var keys, rule := Keys(content), rules[m - 1];
    var a := |Selected(rules[..m - 1], keys)|;
    SelectedAt(rules, keys, m);
    ProjectionLemmas.PairAt(rules, content, out, a);
    FoundAtOwnPair(rules, content, out, a);
    ProjectionLemmas.RuleAtFound(rule, out, 2 * a);
    if |rule.includes| > 0 {
      var nested := FirstValue(content, rule.key);
      assert Project(rule.includes, nested) == Ok(out[2 * a + 1]);
      assert DistinctKeys(rule.includes);
      ProjectIdempotent(rule.includes, nested, out[2 * a + 1]);
    }
  }

  lemma SliceExtend(s: seq<Node>, n: nat)
    requires n + 2 <= |s|
    ensures s[..n] + [s[n], s[n + 1]] == s[..n + 2]
  {
  }

  /** Re-projecting `out` through the first `m` rules gives back the part of
      `out` that those rules produced from `content`. */
  ghost predicate Reproduced(rules: seq<Rule>, content: seq<Node>, out: seq<Node>, m: nat)
    requires m <= |rules|
  {
    && 2 * |Selected(rules[..m], Keys(content))| <= |out|
    && ProjectPairs(rules[..m], out) == Ok(out[..2 * |Selected(rules[..m], Keys(content))|])
  }

  /** Re-projecting the output `out` of `rules` through the first `m` rules
      reproduces the part of `out` those rules produced. */
  lemma {:induction false} ReprojectPrefix(rules: seq<Rule>, content: seq<Node>, out: seq<Node>, m: nat)
    requires DistinctKeys(rules)
    requires ProjectPairs(rules, content) == Ok(out)
    requires m <= |rules|
    ensures Reproduced(rules, content, out, m)
    decreases rules, 0, 1, m
  {
    if m == 0 {
      assert rules[..0] == [];
    } else {
      ReprojectPrefix(rules, content, out, m - 1);
      if rules[m - 1].key in Keys(content) {
        ReprojectStepPresent(rules, content, out, m);
      } else {
        ReprojectStepAbsent(rules, content, out, m);
      }
    }
  }

  /** Selecting from the first `m` rules adds rule `m - 1` to those selected
      from the rules before it exactly when its key is present. */
  lemma SelectedStep(rules: seq<Rule>, keys: seq<string>, m: nat)
    requires 0 < m <= |rules|
    ensures Selected(rules[..m], keys) ==
      Selected(rules[..m - 1], keys) + (if rules[m - 1].key in keys then [rules[m - 1]] else [])
  {
    assert rules[..m][..m - 1] == rules[..m - 1];
  }

  /** The step of `ReprojectPrefix` for a rule whose key is present. */
  lemma ReprojectStepPresent(rules: seq<Rule>, content: seq<Node>, out: seq<Node>, m: nat)
    requires DistinctKeys(rules)
    requires ProjectPairs(rules, content) == Ok(out)
    requires 0 < m <= |rules| && rules[m - 1].key in Keys(content)
    requires Reproduced(rules, content, out, m - 1)
    ensures Reproduced(rules, content, out, m)
    decreases rules, 0, 0, 1
  {
    var keys := Keys(content);
    var a := |Selected(rules[..m - 1], keys)|;
    SelectedStep(rules, keys, m);
    assert |Selected(rules[..m], keys)| == a + 1;
    ReprojectPresent(rules, content, out, m);
    PairsExtend(rules, out, m, a);
  }

  /** If the first `m - 1` rules reproduce the first `a` pairs of `out` and
      rule `m - 1` reproduces pair `a`, the first `m` rules reproduce the
      first `a + 1` pairs. */
  lemma PairsExtend(rules: seq<Rule>, out: seq<Node>, m: nat, a: nat)
    requires 0 < m <= |rules| && 2 * a + 2 <= |out|
    requires ProjectPairs(rules[..m - 1], out) == Ok(out[..2 * a])
    requires ProjectRule(rules[m - 1], out) == Ok([out[2 * a], out[2 * a + 1]])
    ensures ProjectPairs(rules[..m], out) == Ok(out[..2 * a + 2])
  {
    ProjectionLemmas.PairsStep(rules, out, m - 1, out[..2 * a]);
    SliceExtend(out, 2 * a);
  }

  /** The step of `ReprojectPrefix` for a rule whose key is absent. */
  lemma ReprojectStepAbsent(rules: seq<Rule>, content: seq<Node>, out: seq<Node>, m: nat)
    requires ProjectPairs(rules, content) == Ok(out)
    requires 0 < m <= |rules| && rules[m - 1].key !in Keys(content)
    requires Reproduced(rules, content, out, m - 1)
    ensures Reproduced(rules, content, out, m)
  {
    var keys, rule := Keys(content), rules[m - 1];
    var a := |Selected(rules[..m - 1], keys)|;
    SelectedStep(rules, keys, m);
    assert |Selected(rules[..m], keys)| == a;
    ProjectionLemmas.PairsStep(rules, out, m - 1, out[..2 * a]);
    ProjectionLemmas.PairsLength(rules, content, out);
    SelectedKeysPresent(rules, keys, rule.key);
    ProjectionLemmas.PairsKeyOrder(rules, content, out);
    ProjectionLemmas.AbsentKeyAppendsNothing(rule, out);
    assert ProjectPairs(rules[..m], out) == Ok(out[..2 * a] + []);
    assert out[..2 * a] + [] == out[..2 * a];
  }

  /** Idempotence: with distinct sibling keys, projecting a projection's
      output through the same rules returns that output unchanged. */
  lemma {:induction false} ProjectIdempotent(rules: seq<Rule>, input: Node, output: Node)
    requires DistinctKeys(rules)
    requires Project(rules, input) == Ok(output)
    ensures Project(rules, output) == Ok(output)
    decreases rules, 1
  {
    ReprojectPrefix(rules, input.content, output.content, |rules|);
    assert rules[..|rules|] == rules;
    ProjectionLemmas.PairsLength(rules, input.content, output.content);
    assert output.content[..|output.content|] == output.content;
  }
}
