/** The projection of a YAML mapping onto a forest of inclusion rules, as a
    recursive specification. `Filter.FilterByRules` is the loop-based
    implementation proved equal to `Project`. */
module Projection {
  import opened Yaml

  /** An inclusion rule (`IncludeConfigItem`): a key, and the rules for that
      key's value. Empty `includes` means "keep the whole value". */
  datatype Rule = Rule(key: string, includes: seq<Rule>)

  /** The ways trimming can fail. */
  datatype Error =
    | NotAMapping(node: Node)                  // a rule forest applied to a node that is not a mapping
    | IndexOutOfRange(index: nat, length: nat) // reading the value of a trailing key in odd-length content
    | EmptyDocument                            // the parsed document has no content
    | MultipleDocuments(count: nat)            // the parsed document has more than one top-level node

  datatype Result<T> = Ok(value: T) | Err(error: Error)

  /** Outcome of scanning a mapping's content for a key. */
  datatype Match = Found(index: nat) | Missing | OutOfRange(index: nat)

  /** The keys of the key/value pairs of `content` from flat index `i` on,
      pair by pair. A trailing key with no value after it is not a pair. */
  function KeysFrom(content: seq<Node>, i: nat): (keys: seq<string>)
    ensures i + 1 >= |content| ==> keys == []
    ensures i <= |content| ==> |content| - i - 1 <= 2 * |keys| <= |content| - i
    ensures forall p :: 0 <= p < |keys| ==> keys[p] == content[i + 2 * p].value
    decreases |content| - i
  {
    if i + 1 >= |content| then [] else [content[i].value] + KeysFrom(content, i + 2)
  }

  /** The keys of a mapping's content. */
  function Keys(content: seq<Node>): (keys: seq<string>)
    ensures |keys| == |content| / 2
    ensures forall p :: 0 <= p < |keys| ==> keys[p] == content[2 * p].value
  {
    seq(|content| / 2, p requires 0 <= p < |content| / 2 => content[2 * p].value)
  }

  /** The position of the first occurrence of `key` in `keys`. */
  function IndexOf(keys: seq<string>, key: string): (p: nat)
    requires key in keys
    ensures p < |keys| && keys[p] == key && key !in keys[..p]
  {
    if keys[0] == key then 0 else 1 + IndexOf(keys[1..], key)
  }

  /** The inner loop: step through `content` two at a time from `i`, reading
      each key and its value, and stop at the first key whose text is `key`.
      The value is read before the key is compared, so reaching a trailing
      key without a value is an out-of-range access. */
  function Scan(content: seq<Node>, key: string, i: nat): (m: Match)
    ensures m.Found? ==>
      && i <= m.index && m.index + 1 < |content|
      && content[m.index].value == key
    ensures m.OutOfRange? ==> i < |content| && m.index == |content|
    decreases |content| - i
  {
    if i >= |content| then Missing
    else if i + 1 >= |content| then OutOfRange(i + 1)
    else if content[i].value == key then Found(i)
    else Scan(content, key, i + 2)
  }

  /** The rules of `rules` whose keys occur in `keys`, in declaration order:
      the reference for which entries the output mapping holds. */
  function Selected(rules: seq<Rule>, keys: seq<string>): (sel: seq<Rule>)
    ensures |sel| <= |rules|
    ensures forall r :: r in sel ==> r in rules && r.key in keys
  {
    if rules == [] then []
    else
      var last := rules[|rules| - 1];
      Selected(rules[..|rules| - 1], keys) + (if last.key in keys then [last] else [])
  }

  /** The keys of a rule sequence, in order. */
  function RuleKeys(rules: seq<Rule>): (keys: seq<string>)
    ensures |keys| == |rules|
    ensures forall p :: 0 <= p < |rules| ==> keys[p] == rules[p].key
  {
    seq(|rules|, p requires 0 <= p < |rules| => rules[p].key)
  }

  /** Projection of `input` onto `rules` (filterByRules). The result is a
      fresh mapping with the input's style and no scalar text. */
  function Project(rules: seq<Rule>, input: Node): (r: Result<Node>)
    ensures input.kind != MappingNode ==> r == Err(NotAMapping(input))
    ensures r.Ok? ==>
      && input.kind == MappingNode
      && r.value.kind == MappingNode
      && r.value.style == input.style
      && r.value.value == ""
      && |r.value.content| % 2 == 0
      && |r.value.content| <= 2 * |rules|
    decreases rules, 2
  {
    if input.kind != MappingNode then Err(NotAMapping(input))
    else
      match ProjectPairs(rules, input.content)
      case Err(e) => Err(e)
      case Ok(pairs) => Ok(Node(MappingNode, input.style, "", pairs))
  }

  /** The outer loop: the output content after the rules of `rules`, in
      order; the first rule that fails stops the whole projection. */
  function ProjectPairs(rules: seq<Rule>, content: seq<Node>): (r: Result<seq<Node>>)
    ensures r.Ok? ==> |r.value| % 2 == 0 && |r.value| <= 2 * |rules|
    decreases rules, 1
  {
    if rules == [] then Ok([])
    else
      match ProjectPairs(rules[..|rules| - 1], content)
      case Err(e) => Err(e)
      case Ok(done) =>
        match ProjectRule(rules[|rules| - 1], content)
        case Err(e) => Err(e)
        case Ok(pair) => Ok(done + pair)
  }

  /** What one rule appends: nothing when its key is absent, otherwise the
      first matching key node and either the value node itself or the
      projection of the value onto the nested rules. */
  function ProjectRule(rule: Rule, content: seq<Node>): (r: Result<seq<Node>>)
    ensures r.Ok? ==> |r.value| == 0 || |r.value| == 2
    decreases rule, 0
  {
    match Scan(content, rule.key, 0)
    case Missing => Ok([])
    case OutOfRange(n) => Err(IndexOutOfRange(n, |content|))
    case Found(k) =>
      if |rule.includes| > 0 then
        match Project(rule.includes, content[k + 1])
        case Err(e) => Err(e)
        case Ok(nested) => Ok([content[k], nested])
      else Ok([content[k], content[k + 1]])
  }

  /** The shape condition under which projection succeeds, stated rule by
      rule rather than as a fold: `node` is a mapping and every rule conforms. */
  ghost predicate Conforms(rules: seq<Rule>, node: Node)
    decreases rules, 1
  {
    && node.kind == MappingNode
    && forall j :: 0 <= j < |rules| ==> RuleConforms(rules[j], node.content)
  }

  /** A rule conforms to a mapping's content when, its key being absent, the
      content has no trailing key, or, its key being present, it has no
      nested rules or the value of the first pair with that key conforms to
      them. */
  ghost predicate RuleConforms(rule: Rule, content: seq<Node>)
    decreases rule, 0
  {
    if rule.key in Keys(content) then
      |rule.includes| == 0 || Conforms(rule.includes, FirstValue(content, rule.key))
    else |content| % 2 == 0
  }

  /** The key node of the first pair whose key text is `key`. */
  function FirstKey(content: seq<Node>, key: string): (k: Node)
    requires key in Keys(content)
  {
    content[2 * IndexOf(Keys(content), key)]
  }

  /** The value node of the first pair whose key text is `key`. */
  function FirstValue(content: seq<Node>, key: string): (v: Node)
    requires key in Keys(content)
  {
    content[2 * IndexOf(Keys(content), key) + 1]
  }

  /** `key` and `value` are what `rule` selects from a mapping's content:
      the first pair whose key text is the rule's key, with the value kept
      as it is when the rule has no nested rules and projected onto them
      otherwise. */
  ghost predicate IsEntry(rule: Rule, content: seq<Node>, key: Node, value: Node) {
    && rule.key in Keys(content)
    && key == FirstKey(content, rule.key)
    && if |rule.includes| == 0 then value == FirstValue(content, rule.key)
       else Project(rule.includes, FirstValue(content, rule.key)) == Ok(value)
  }

  /** No two elements of `keys` are equal. */
  ghost predicate Unique(keys: seq<string>) {
    forall i, j :: 0 <= i < j < |keys| ==> keys[i] != keys[j]
  }

  /** No two sibling rules share a key, at any depth. */
  ghost predicate DistinctKeys(rules: seq<Rule>)
  {
    && (forall i, j :: 0 <= i < j < |rules| ==> rules[i].key != rules[j].key)
    && (forall i :: 0 <= i < |rules| ==> DistinctKeys(rules[i].includes))
  }
}
