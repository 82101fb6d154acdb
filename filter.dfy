/** The trimmer's engine as the program runs it: `FilterByRules` walks the
    rules with an outer loop and each mapping's flat content with an inner
    loop two entries at a time, and `Trim` unwraps the parsed document. */
module Filter {
  import opened Yaml
  import opened Projection
  import ProjectionLemmas

  /** filterByRules: builds the output mapping rule by rule and equals the
      specification `Project` on every input, error cases included. */
  method FilterByRules(rules: seq<Rule>, input: Node) returns (r: Result<Node>)
    ensures r == Project(rules, input)
    decreases rules
  {
    if input.kind != MappingNode {
      return Err(NotAMapping(input));
    }
    var content: seq<Node> := [];
    var j := 0;
    while j < |rules|
      invariant 0 <= j <= |rules|
      invariant ProjectPairs(rules[..j], input.content) == Ok(content)
    {
      var rule := rules[j];
      ghost var done := content;
      ProjectionLemmas.PairsStep(rules, input.content, j, done);
      var i := 0;
      while i < |input.content|
        invariant 0 <= i <= |input.content|
        invariant Scan(input.content, rule.key, i) == Scan(input.content, rule.key, 0)
        invariant content == done
        decreases |input.content| - i
      {
        if i + 1 >= |input.content| {
          ProjectionLemmas.RuleAtTrailingKey(rule, input.content, i);
          return Err(IndexOutOfRange(i + 1, |input.content|));
        }
        var keyNode := input.content[i];
        var valueNode := input.content[i + 1];
        if keyNode.value == rule.key {
          ProjectionLemmas.RuleAtMatch(rule, input.content, i);
          content := content + [keyNode];
          if |rule.includes| > 0 {
            var nested := FilterByRules(rule.includes, valueNode);
            if nested.Err? {
              return Err(nested.error);
            }
            content := content + [nested.value];
          } else {
            content := content + [valueNode];
          }
          break;
        }
        i := i + 2;
      }
      if i >= |input.content| {
        ProjectionLemmas.RuleAtEnd(rule, input.content, i);
      }
      assert ProjectRule(rule, input.content).Ok? && content == done + ProjectRule(rule, input.content).value;
      j := j + 1;
    }
    assert rules[..j] == rules;
    return Ok(Node(MappingNode, input.style, "", content));
  }

  /** trim's structural part: a parsed document with no content or with more
      than one top-level node is rejected; otherwise its single node is
      projected. */
  method Trim(rules: seq<Rule>, root: Node) returns (r: Result<Node>)
    ensures |root.content| == 0 ==> r == Err(EmptyDocument)
    ensures |root.content| > 1 ==> r == Err(MultipleDocuments(|root.content|))
    ensures |root.content| == 1 ==> r == Project(rules, root.content[0])
  {
    if |root.content| == 0 {
      return Err(EmptyDocument);
    }
    if |root.content| > 1 {
      return Err(MultipleDocuments(|root.content|));
    }
    var document := root.content[0];
    r := FilterByRules(rules, document);
  }
}
