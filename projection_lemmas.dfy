/** Properties of the projection specification: which entries the output
    holds and in which order, that each is the first match copied verbatim or
    projected further, when projection fails, the empty result, and
    idempotence. */
module ProjectionLemmas {
  import opened Yaml
  import opened Projection

  /** Once one rule has failed, the rules after it are never looked at: the
      whole projection fails with that rule's error. */
  lemma {:induction false} FailedPrefixFails(rules: seq<Rule>, content: seq<Node>, n: nat)
    requires n <= |rules|
    requires ProjectPairs(rules[..n], content).Err?
    ensures ProjectPairs(rules, content) == ProjectPairs(rules[..n], content)
  {
    if n < |rules| {
      var init := rules[..|rules| - 1];
      assert init[..n] == rules[..n];
      FailedPrefixFails(init, content, n);
    } else {
      assert rules[..n] == rules;
    }
  }

  /** One turn of the outer loop: rule `j` either extends the output built
      by the rules before it, or its failure is the failure of all of them. */
  lemma PairsStep(rules: seq<Rule>, content: seq<Node>, j: nat, done: seq<Node>)
    requires j < |rules|
    requires ProjectPairs(rules[..j], content) == Ok(done)
    ensures ProjectRule(rules[j], content).Ok? ==>
      ProjectPairs(rules[..j + 1], content) == Ok(done + ProjectRule(rules[j], content).value)
    ensures ProjectRule(rules[j], content).Err? ==>
      ProjectPairs(rules, content) == Err(ProjectRule(rules[j], content).error)
  {
    assert rules[..j + 1][..j] == rules[..j];
    if ProjectRule(rules[j], content).Err? {
      FailedPrefixFails(rules, content, j + 1);
    }
  }

  /** The inner loop stopped at the first matching key, at flat index `i`:
      what the rule appends, or why it fails. */
  lemma RuleAtMatch(rule: Rule, content: seq<Node>, i: nat)
    requires i + 1 < |content| && content[i].value == rule.key
    requires Scan(content, rule.key, i) == Scan(content, rule.key, 0)
    ensures |rule.includes| == 0 ==> ProjectRule(rule, content) == Ok([content[i], content[i + 1]])
    ensures |rule.includes| > 0 && Project(rule.includes, content[i + 1]).Err? ==>
      ProjectRule(rule, content) == Err(Project(rule.includes, content[i + 1]).error)
    ensures |rule.includes| > 0 && Project(rule.includes, content[i + 1]).Ok? ==>
      ProjectRule(rule, content) == Ok([content[i], Project(rule.includes, content[i + 1]).value])
  {
    if |rule.includes| > 0 {
      var nested := Project(rule.includes, content[i + 1]);
      if nested.Err? {
        assert ProjectRule(rule, content) == Err(nested.error);
      } else {
        assert ProjectRule(rule, content) == Ok([content[i], nested.value]);
      }
    }
  }

  /** A scan that found the key at flat index `k`: what the rule appends, or
      why it fails. */
  lemma RuleAtFound(rule: Rule, content: seq<Node>, k: nat)
    requires Scan(content, rule.key, 0) == Found(k)
    ensures |rule.includes| == 0 ==> ProjectRule(rule, content) == Ok([content[k], content[k + 1]])
    ensures |rule.includes| > 0 && Project(rule.includes, content[k + 1]).Err? ==>
      ProjectRule(rule, content) == Err(Project(rule.includes, content[k + 1]).error)
    ensures |rule.includes| > 0 && Project(rule.includes, content[k + 1]).Ok? ==>
      ProjectRule(rule, content) == Ok([content[k], Project(rule.includes, content[k + 1]).value])
  {
    RuleAtMatch(rule, content, k);
  }

  /** The inner loop reached a trailing key whose value is out of range. */
  lemma RuleAtTrailingKey(rule: Rule, content: seq<Node>, i: nat)
    requires i < |content| <= i + 1
    requires Scan(content, rule.key, i) == Scan(content, rule.key, 0)
    ensures ProjectRule(rule, content) == Err(IndexOutOfRange(i + 1, |content|))
  {
  }

  /** The inner loop ran to the end without a match: the rule appends nothing. */
  lemma RuleAtEnd(rule: Rule, content: seq<Node>, i: nat)
    requires |content| <= i
    requires Scan(content, rule.key, i) == Scan(content, rule.key, 0)
    ensures ProjectRule(rule, content) == Ok([])
  {
  }

  /** The inner loop finds a key exactly when it is among the mapping's
      keys, and then at the first pair that has it; it runs out of range
      exactly when the key is absent and a trailing key follows the pairs. */
  lemma {:induction false} ScanFindsFirstKey(content: seq<Node>, key: string, i: nat)
    ensures Scan(content, key, i).Found? <==> key in KeysFrom(content, i)
    ensures Scan(content, key, i).Found? ==>
      Scan(content, key, i).index == i + 2 * IndexOf(KeysFrom(content, i), key)
    ensures Scan(content, key, i).OutOfRange? <==>
      key !in KeysFrom(content, i) && |content| == i + 2 * |KeysFrom(content, i)| + 1
    decreases |content| - i
  {
    if i + 1 < |content| {
      ScanFindsFirstKey(content, key, i + 2);
      var keys := KeysFrom(content, i);
      assert keys == [content[i].value] + KeysFrom(content, i + 2);
      assert keys[1..] == KeysFrom(content, i + 2);
    }
  }

  /** Walking the pairs from the start gives the mapping's keys. */
  lemma KeysFromStart(content: seq<Node>)
    ensures KeysFrom(content, 0) == Keys(content)
  {
    var walked, keys := KeysFrom(content, 0), Keys(content);
    assert |walked| == |keys|;
    forall p | 0 <= p < |keys| ensures walked[p] == keys[p] {
    }
  }

  /** The inner loop from the start: it finds a key exactly when the key is
      among the mapping's keys, at the first pair with that key, and it runs
      out of range exactly when the key is absent and the content has a
      trailing key. */
  lemma ScanFindsKey(content: seq<Node>, key: string)
    ensures Scan(content, key, 0).Found? <==> key in Keys(content)
    ensures Scan(content, key, 0).Found? ==> Scan(content, key, 0).index == 2 * IndexOf(Keys(content), key)
    ensures Scan(content, key, 0).OutOfRange? <==> key !in Keys(content) && |content| % 2 == 1
  {
    ScanFindsFirstKey(content, key, 0);
    KeysFromStart(content);
  }

  /** In a mapping with no trailing key, a rule whose key is absent appends
      nothing. */
  lemma AbsentKeyAppendsNothing(rule: Rule, content: seq<Node>)
    requires |content| % 2 == 0
    requires rule.key !in Keys(content)
    ensures ProjectRule(rule, content) == Ok([])
  {
    ScanFindsKey(content, rule.key);
  }

  /** What one rule appends when it succeeds: nothing if its key is absent,
      and otherwise the entry it selects. */
  lemma RuleMeaning(rule: Rule, content: seq<Node>, pair: seq<Node>)
    requires ProjectRule(rule, content) == Ok(pair)
    ensures rule.key !in Keys(content) ==> pair == []
    ensures rule.key in Keys(content) ==> |pair| == 2 && IsEntry(rule, content, pair[0], pair[1])
  {
    if rule.key in Keys(content) {
      PresentRule(rule, content);
    } else {
      ScanFindsKey(content, rule.key);
    }
  }

  /** A successful fold holds two nodes per selected rule. */
  lemma PairsLength(rules: seq<Rule>, content: seq<Node>, out: seq<Node>)
    requires ProjectPairs(rules, content) == Ok(out)
    ensures |out| == 2 * |Selected(rules, Keys(content))|
  {
    PairsMeaning(rules, content, out);
  }

  /** The output of a successful projection holds one key/value pair per
      selected rule, in rule order, and each pair is the entry that rule
      selects from the input. */
  lemma {:induction false} PairsMeaning(rules: seq<Rule>, content: seq<Node>, out: seq<Node>)
    requires ProjectPairs(rules, content) == Ok(out)
    ensures |out| == 2 * |Selected(rules, Keys(content))|
    ensures forall p :: 0 <= p < |Selected(rules, Keys(content))| ==>
      IsEntry(Selected(rules, Keys(content))[p], content, out[2 * p], out[2 * p + 1])
    decreases rules
  {
    if rules != [] {
      var init, last := rules[..|rules| - 1], rules[|rules| - 1];
      var done := ProjectPairs(init, content).value;
      var pair := ProjectRule(last, content).value;
      assert out == done + pair;
      PairsMeaning(init, content, done);
      RuleMeaning(last, content, pair);
      var sel, before := Selected(rules, Keys(content)), Selected(init, Keys(content));
      assert sel == before + (if last.key in Keys(content) then [last] else []);
      forall p | 0 <= p < |sel|
        ensures IsEntry(sel[p], content, out[2 * p], out[2 * p + 1])
      {
        if p < |before| {
          assert sel[p] == before[p];
          assert out[2 * p] == done[2 * p] && out[2 * p + 1] == done[2 * p + 1];
        } else {
          assert sel[p] == last;
          assert out[2 * p] == pair[0] && out[2 * p + 1] == pair[1];
        }
      }
    }
  }

  /** The `p`-th output pair is the entry of the `p`-th selected rule. */
  lemma PairAt(rules: seq<Rule>, content: seq<Node>, out: seq<Node>, p: nat)
    requires ProjectPairs(rules, content) == Ok(out)
    requires p < |Selected(rules, Keys(content))|
    ensures 2 * p + 1 < |out|
    ensures IsEntry(Selected(rules, Keys(content))[p], content, out[2 * p], out[2 * p + 1])
  {
    PairsMeaning(rules, content, out);
  }

  /** A successful projection of a mapping holds exactly one key/value pair
      for each rule whose key occurs in the input, none for the others, in
      rule order; each key node is the input's first key node with that
      text, each value is copied or projected further. */
  lemma ProjectEntries(rules: seq<Rule>, input: Node, output: Node)
    requires Project(rules, input) == Ok(output)
    ensures |output.content| == 2 * |Selected(rules, Keys(input.content))|
    ensures forall p :: 0 <= p < |Selected(rules, Keys(input.content))| ==>
      IsEntry(Selected(rules, Keys(input.content))[p], input.content,
              output.content[2 * p], output.content[2 * p + 1])
  {
    PairsMeaning(rules, input.content, output.content);
  }

  /** The output's keys, in order, are the keys of the rules in declaration
      order, restricted to those present in the input. */
  lemma ProjectKeyOrder(rules: seq<Rule>, input: Node, output: Node)
    requires Project(rules, input) == Ok(output)
    ensures Keys(output.content) == RuleKeys(Selected(rules, Keys(input.content)))
  {
    PairsKeyOrder(rules, input.content, output.content);
  }

  lemma PairsKeyOrder(rules: seq<Rule>, content: seq<Node>, out: seq<Node>)
    requires ProjectPairs(rules, content) == Ok(out)
    ensures Keys(out) == RuleKeys(Selected(rules, Keys(content)))
  {
    var sel := Selected(rules, Keys(content));
    PairsMeaning(rules, content, out);
    var got, want := Keys(out), RuleKeys(sel);
    assert |got| == |want|;
    forall p | 0 <= p < |got| ensures got[p] == want[p] {
      assert IsEntry(sel[p], content, out[2 * p], out[2 * p + 1]);
    }
  }

  /** Projection succeeds exactly when the input has the shape the rules
      expect; otherwise it fails as a whole and yields no partial output. */
  lemma {:induction false} ProjectSucceedsIffConforms(rules: seq<Rule>, input: Node)
    ensures Project(rules, input).Ok? <==> Conforms(rules, input)
    decreases rules, 2
  {
    if input.kind == MappingNode {
      PairsSucceedIffRulesConform(rules, input.content);
    }
  }

  lemma {:induction false} PairsSucceedIffRulesConform(rules: seq<Rule>, content: seq<Node>)
    ensures ProjectPairs(rules, content).Ok? <==>
      forall j :: 0 <= j < |rules| ==> RuleConforms(rules[j], content)
    decreases rules, 1
  {
    if rules != [] {
      var init, last := rules[..|rules| - 1], rules[|rules| - 1];
      PairsSucceedIffRulesConform(init, content);
      RuleSucceedsIffConforms(last, content);
      assert forall j :: 0 <= j < |init| ==> init[j] == rules[j];
    }
  }

  lemma {:induction false} RuleSucceedsIffConforms(rule: Rule, content: seq<Node>)
    ensures ProjectRule(rule, content).Ok? <==> RuleConforms(rule, content)
    decreases rule, 0
  {
    if rule.key in Keys(content) {
      PresentRuleOk(rule, content);
      PresentRuleConforms(rule, content);
      if |rule.includes| > 0 {
        ProjectSucceedsIffConforms(rule.includes, FirstValue(content, rule.key));
      }
    } else {
      AbsentRuleOk(rule, content);
    }
  }

  /** A rule whose key is present succeeds exactly when it has no nested
      rules or the first value with that key projects onto them. */
  lemma PresentRuleOk(rule: Rule, content: seq<Node>)
    requires rule.key in Keys(content)
    ensures ProjectRule(rule, content).Ok? <==>
      |rule.includes| == 0 || Project(rule.includes, FirstValue(content, rule.key)).Ok?
  {
    PresentRule(rule, content);
  }

  lemma PresentRuleConforms(rule: Rule, content: seq<Node>)
    requires rule.key in Keys(content)
    ensures RuleConforms(rule, content) <==>
      |rule.includes| == 0 || Conforms(rule.includes, FirstValue(content, rule.key))
  {
  }

  /** A rule whose key is absent succeeds exactly when the content has no
      trailing key. */
  lemma AbsentRuleOk(rule: Rule, content: seq<Node>)
    requires rule.key !in Keys(content)
    ensures ProjectRule(rule, content).Ok? <==> |content| % 2 == 0
    ensures RuleConforms(rule, content) <==> |content| % 2 == 0
  {
    ScanFindsKey(content, rule.key);
  }

  /** A rule with nested rules whose key's first value is not a mapping makes
      the whole projection fail. */
  lemma NestedMismatchFails(rules: seq<Rule>, input: Node, j: nat)
    requires j < |rules| && |rules[j].includes| > 0
    requires rules[j].key in Keys(input.content)
    requires FirstValue(input.content, rules[j].key).kind != MappingNode
    ensures Project(rules, input).Err?
    ensures input.kind == MappingNode && ProjectPairs(rules[..j], input.content).Ok? ==>
      Project(rules, input) ==
        Err(NotAMapping(FirstValue(input.content, rules[j].key)))
  {
    if input.kind == MappingNode && ProjectPairs(rules[..j], input.content).Ok? {
      MismatchNamesValue(rules, input, j);
    } else {
      MismatchedRuleDoesNotConform(rules[j], input.content);
      ProjectFailsOnRule(rules, input, j);
    }
  }

  /** One rule that does not conform makes the projection fail. */
  lemma ProjectFailsOnRule(rules: seq<Rule>, input: Node, j: nat)
    requires j < |rules| && !RuleConforms(rules[j], input.content)
    ensures Project(rules, input).Err?
  {
    assert !Conforms(rules, input);
    ProjectSucceedsIffConforms(rules, input);
  }

  /** When the rules before rule `j` succeed, the mismatch is reported with
      the offending value node. */
  lemma MismatchNamesValue(rules: seq<Rule>, input: Node, j: nat)
    requires input.kind == MappingNode
    requires j < |rules| && |rules[j].includes| > 0
    requires rules[j].key in Keys(input.content)
    requires FirstValue(input.content, rules[j].key).kind != MappingNode
    requires ProjectPairs(rules[..j], input.content).Ok?
    ensures Project(rules, input) ==
      Err(NotAMapping(FirstValue(input.content, rules[j].key)))
  {
    var content, rule := input.content, rules[j];
    PresentRule(rule, content);
    PairsStep(rules, content, j, ProjectPairs(rules[..j], content).value);
  }

  /** A key that occurs is found at the first pair carrying it. */
  lemma FirstKeyFound(content: seq<Node>, key: string)
    requires key in Keys(content)
    ensures Scan(content, key, 0) == Found(2 * IndexOf(Keys(content), key))
  {
    ScanFindsKey(content, key);
  }

  /** `FirstKey` and `FirstValue` are the nodes of the first pair with that key. */
  lemma FirstNodes(content: seq<Node>, key: string)
    requires key in Keys(content)
    ensures 2 * IndexOf(Keys(content), key) + 1 < |content|
    ensures FirstKey(content, key) == content[2 * IndexOf(Keys(content), key)]
    ensures FirstValue(content, key) == content[2 * IndexOf(Keys(content), key) + 1]
  {
  }

  /** What a rule whose key is present appends: the first key node with that
      text and its value, copied or projected onto the nested rules. */
  lemma PresentRule(rule: Rule, content: seq<Node>)
    requires rule.key in Keys(content)
    ensures |rule.includes| == 0 ==>
      ProjectRule(rule, content) == Ok([FirstKey(content, rule.key), FirstValue(content, rule.key)])
    ensures |rule.includes| > 0 && Project(rule.includes, FirstValue(content, rule.key)).Ok? ==>
      ProjectRule(rule, content) ==
        Ok([FirstKey(content, rule.key), Project(rule.includes, FirstValue(content, rule.key)).value])
    ensures |rule.includes| > 0 && Project(rule.includes, FirstValue(content, rule.key)).Err? ==>
      ProjectRule(rule, content) == Err(Project(rule.includes, FirstValue(content, rule.key)).error)
  {
    FirstKeyFound(content, rule.key);
    FirstNodes(content, rule.key);
    RuleAtFound(rule, content, 2 * IndexOf(Keys(content), rule.key));
  }

  lemma MismatchedRuleDoesNotConform(rule: Rule, content: seq<Node>)
    requires rule.key in Keys(content) && |rule.includes| > 0
    requires FirstValue(content, rule.key).kind != MappingNode
    ensures !RuleConforms(rule, content)
  {
    PresentRuleConforms(rule, content);
  }

  /** A mapping in which no rule's key occurs projects to an empty mapping
      with the input's style, not to an error. */
  lemma {:induction false} NoMatchGivesEmptyMapping(rules: seq<Rule>, input: Node)
    requires input.kind == MappingNode && |input.content| % 2 == 0
    requires forall j :: 0 <= j < |rules| ==> rules[j].key !in Keys(input.content)
    ensures Project(rules, input) == Ok(Node(MappingNode, input.style, "", []))
  {
    NoMatchAppendsNothing(rules, input.content);
  }

  lemma {:induction false} NoMatchAppendsNothing(rules: seq<Rule>, content: seq<Node>)
    requires |content| % 2 == 0
    requires forall j :: 0 <= j < |rules| ==> rules[j].key !in Keys(content)
    ensures ProjectPairs(rules, content) == Ok([])
  {
    if rules != [] {
      var init := rules[..|rules| - 1];
      assert forall j :: 0 <= j < |init| ==> init[j] == rules[j];
      NoMatchAppendsNothing(init, content);
      AbsentKeyAppendsNothing(rules[|rules| - 1], content);
    }
  }

  /** Conversely, the output is empty only when no rule's key occurs in the
      input. */
  lemma EmptyOutputOnlyWithoutMatch(rules: seq<Rule>, input: Node, output: Node)
    requires Project(rules, input) == Ok(output) && output.content == []
    ensures forall j :: 0 <= j < |rules| ==> rules[j].key !in Keys(input.content)
  {
    ProjectEntries(rules, input, output);
    SelectedEmpty(rules, Keys(input.content));
  }

  /** No rule is selected exactly when no rule's key occurs in `keys`. */
  lemma {:induction false} SelectedEmpty(rules: seq<Rule>, keys: seq<string>)
    ensures Selected(rules, keys) == [] <==> forall j :: 0 <= j < |rules| ==> rules[j].key !in keys
  {
    if rules != [] {
      var init := rules[..|rules| - 1];
      assert forall j :: 0 <= j < |init| ==> init[j] == rules[j];
      SelectedEmpty(init, keys);
    }
  }
}
