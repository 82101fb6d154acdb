/** Concrete projections: the cases of the program's own test table, the
    nested shape mismatch, and the repeated-key case that is not idempotent. */
module Examples {
  import opened Yaml
  import opened Projection

  function Scalar(text: string): (n: Node) {
    Node(ScalarNode, 0, text, [])
  }

  function Mapping(content: seq<Node>): (n: Node) {
    Node(MappingNode, 0, "", content)
  }

  /** The fold over a single rule is that rule's contribution. */
  lemma OneRule(rule: Rule, content: seq<Node>)
    ensures ProjectPairs([rule], content) == ProjectRule(rule, content)
  {
    assert [rule][..0] == [];
    match ProjectRule(rule, content)
    case Err(_) =>
    case Ok(pair) => assert [] + pair == pair;
  }

  /** The fold over two succeeding rules concatenates their contributions. */
  lemma TwoRules(first: Rule, second: Rule, content: seq<Node>)
    requires ProjectRule(first, content).Ok? && ProjectRule(second, content).Ok?
    ensures ProjectPairs([first, second], content) ==
      Ok(ProjectRule(first, content).value + ProjectRule(second, content).value)
  {
    assert [first, second][..1] == [first];
    OneRule(first, content);
  }

  /** cache: {enabled: true, path: /tmp}, database: {host: localhost, port: 5432} */
  function ServiceConfig(): Node {
    Mapping([
      Scalar("cache"), Mapping([Scalar("enabled"), Scalar("true"), Scalar("path"), Scalar("/tmp")]),
      Scalar("database"), Mapping([Scalar("host"), Scalar("localhost"), Scalar("port"), Scalar("5432")])
    ])
  }

  /** Keeping only `cache` copies its whole value. */
  lemma SimpleFiltering()
    ensures Project([Rule("cache", [])], ServiceConfig()) ==
      Ok(Mapping([Scalar("cache"), Mapping([Scalar("enabled"), Scalar("true"), Scalar("path"), Scalar("/tmp")])]))
  {
    var content := ServiceConfig().content;
    assert Scan(content, "cache", 0) == Found(0);
    OneRule(Rule("cache", []), content);
  }

  /** credentials: {username: user, password: pass} */
  function Credentials(): Node {
    Mapping([Scalar("username"), Scalar("user"), Scalar("password"), Scalar("pass")])
  }

  /** database: {host: localhost, port: 5432, credentials: ...} */
  function Database(): Node {
    Mapping([Scalar("host"), Scalar("localhost"), Scalar("port"), Scalar("5432"), Scalar("credentials"), Credentials()])
  }

  /** cache: {enabled: true}, database: ... */
  function NestedConfig(): Node {
    Mapping([Scalar("cache"), Mapping([Scalar("enabled"), Scalar("true")]), Scalar("database"), Database()])
  }

  function DatabaseRules(): seq<Rule> {
    [Rule("host", []), Rule("credentials", [Rule("username", [])])]
  }

  lemma CredentialsFiltered()
    ensures Project([Rule("username", [])], Credentials()) == Ok(Mapping([Scalar("username"), Scalar("user")]))
  {
    assert Scan(Credentials().content, "username", 0) == Found(0);
    OneRule(Rule("username", []), Credentials().content);
  }

  lemma DatabaseFiltered()
    ensures Project(DatabaseRules(), Database()) ==
      Ok(Mapping([Scalar("host"), Scalar("localhost"), Scalar("credentials"), Mapping([Scalar("username"), Scalar("user")])]))
  {
    var content := Database().content;
    var host, credentials := DatabaseRules()[0], DatabaseRules()[1];
    assert Scan(content, "host", 0) == Found(0);
    assert ProjectRule(host, content) == Ok([Scalar("host"), Scalar("localhost")]);
    assert Scan(content, "credentials", 4) == Found(4);
    assert Scan(content, "credentials", 2) == Found(4);
    assert Scan(content, "credentials", 0) == Found(4);
    CredentialsFiltered();
    assert ProjectRule(credentials, content) ==
      Ok([Scalar("credentials"), Mapping([Scalar("username"), Scalar("user")])]);
    TwoRules(host, credentials, content);
    assert DatabaseRules() == [host, credentials];
    assert [Scalar("host"), Scalar("localhost")] + [Scalar("credentials"), Mapping([Scalar("username"), Scalar("user")])]
        == [Scalar("host"), Scalar("localhost"), Scalar("credentials"), Mapping([Scalar("username"), Scalar("user")])];
  }

  /** Nested rules keep `host` and only `username` under `credentials`. */
  lemma NestedFiltering()
    ensures Project([Rule("database", DatabaseRules())], NestedConfig()) ==
      Ok(Mapping([
        Scalar("database"),
        Mapping([Scalar("host"), Scalar("localhost"), Scalar("credentials"), Mapping([Scalar("username"), Scalar("user")])])
      ]))
  {
    var content := NestedConfig().content;
    DatabaseFiltered();
    assert Scan(content, "database", 0) == Scan(content, "database", 2) == Found(2);
    OneRule(Rule("database", DatabaseRules()), content);
  }

  /** A rule for a key that does not occur yields the empty mapping `{}`. */
  lemma NoMatchingKeys()
    ensures Project([Rule("nonexistent", [])], ServiceConfig()) == Ok(Mapping([]))
  {
  }

  /** Nested rules under a scalar value fail, naming that value. */
  lemma ScalarUnderNestedRules()
    ensures Project([Rule("database", [Rule("host", [])])], Mapping([Scalar("database"), Scalar("localhost")])) ==
      Err(NotAMapping(Scalar("localhost")))
  {
  }

  /** Two sibling rules for the same key `a`, the first keeping `x` and the
      second `y`. */
  function RepeatedRules(): seq<Rule> {
    [Rule("a", [Rule("x", [])]), Rule("a", [Rule("y", [])])]
  }

  /** a: {x: 1, y: 2} */
  function RepeatedInput(): Node {
    Mapping([Scalar("a"), Mapping([Scalar("x"), Scalar("1"), Scalar("y"), Scalar("2")])])
  }

  /** a: {x: 1}, a: {y: 2} */
  function RepeatedOutput(): Node {
    Mapping([Scalar("a"), Mapping([Scalar("x"), Scalar("1")]), Scalar("a"), Mapping([Scalar("y"), Scalar("2")])])
  }

  lemma RepeatedFirstPass()
    ensures Project(RepeatedRules(), RepeatedInput()) == Ok(RepeatedOutput())
  {
    var keepX, keepY := RepeatedRules()[0], RepeatedRules()[1];
    var value := RepeatedInput().content[1];
    assert Scan(value.content, "x", 0) == Found(0);
    assert Scan(value.content, "y", 2) == Found(2);
    assert Scan(value.content, "y", 0) == Found(2);
    OneRule(Rule("x", []), value.content);
    OneRule(Rule("y", []), value.content);
    assert Project(keepX.includes, value) == Ok(Mapping([Scalar("x"), Scalar("1")]));
    assert Project(keepY.includes, value) == Ok(Mapping([Scalar("y"), Scalar("2")]));
    var content := RepeatedInput().content;
    assert Scan(content, "a", 0) == Found(0);
    assert ProjectRule(keepX, content) == Ok([Scalar("a"), Mapping([Scalar("x"), Scalar("1")])]);
    assert ProjectRule(keepY, content) == Ok([Scalar("a"), Mapping([Scalar("y"), Scalar("2")])]);
    TwoRules(keepX, keepY, content);
    assert RepeatedRules() == [keepX, keepY];
    assert [Scalar("a"), Mapping([Scalar("x"), Scalar("1")])] + [Scalar("a"), Mapping([Scalar("y"), Scalar("2")])]
        == RepeatedOutput().content;
  }

  lemma RepeatedSecondPass()
    ensures Project(RepeatedRules(), RepeatedOutput()) ==
      Ok(Mapping([Scalar("a"), Mapping([Scalar("x"), Scalar("1")]), Scalar("a"), Mapping([])]))
  {
    var keepX, keepY := RepeatedRules()[0], RepeatedRules()[1];
    var first := RepeatedOutput().content[1];
    assert Scan(first.content, "x", 0) == Found(0);
    assert Scan(first.content, "y", 2) == Missing;
    assert Scan(first.content, "y", 0) == Missing;
    OneRule(Rule("x", []), first.content);
    OneRule(Rule("y", []), first.content);
    assert Project(keepX.includes, first) == Ok(Mapping([Scalar("x"), Scalar("1")]));
    assert Project(keepY.includes, first) == Ok(Mapping([]));
    var content := RepeatedOutput().content;
    assert Scan(content, "a", 0) == Found(0);
    assert ProjectRule(keepX, content) == Ok([Scalar("a"), Mapping([Scalar("x"), Scalar("1")])]);
    assert ProjectRule(keepY, content) == Ok([Scalar("a"), Mapping([])]);
    TwoRules(keepX, keepY, content);
    assert RepeatedRules() == [keepX, keepY];
    assert [Scalar("a"), Mapping([Scalar("x"), Scalar("1")])] + [Scalar("a"), Mapping([])]
        == [Scalar("a"), Mapping([Scalar("x"), Scalar("1")]), Scalar("a"), Mapping([])];
  }

  /** Re-projecting the output, both rules find the first `a`, whose value no
      longer has `y`: without distinct sibling keys projection is not
      idempotent. */
  lemma RepeatedKeysBreakIdempotence()
    ensures !DistinctKeys(RepeatedRules())
    ensures Project(RepeatedRules(), RepeatedInput()) == Ok(RepeatedOutput())
    ensures Project(RepeatedRules(), RepeatedOutput()) != Ok(RepeatedOutput())
  {
    assert RepeatedRules()[0].key == RepeatedRules()[1].key;
    RepeatedFirstPass();
    RepeatedSecondPass();
    assert RepeatedOutput().content[3] != Mapping([]);
  }

  /** Repeated keys without nested rules: two rules for `a` turn `{a: 1}`
      into `{a: 1, a: 1}`, and that output projects back to itself, although
      the rules do not have distinct keys. */
  lemma RepeatedPlainKeysIdempotent()
    ensures !DistinctKeys([Rule("a", []), Rule("a", [])])
    ensures Project([Rule("a", []), Rule("a", [])], Mapping([Scalar("a"), Scalar("1")])) ==
      Ok(Mapping([Scalar("a"), Scalar("1"), Scalar("a"), Scalar("1")]))
    ensures Project([Rule("a", []), Rule("a", [])], Mapping([Scalar("a"), Scalar("1"), Scalar("a"), Scalar("1")])) ==
      Ok(Mapping([Scalar("a"), Scalar("1"), Scalar("a"), Scalar("1")]))
  {
    var keepA := Rule("a", []);
    assert [keepA, keepA][0].key == [keepA, keepA][1].key;
    var once, twice := [Scalar("a"), Scalar("1")], [Scalar("a"), Scalar("1"), Scalar("a"), Scalar("1")];
    assert Scan(once, "a", 0) == Found(0);
    assert Scan(twice, "a", 0) == Found(0);
    assert ProjectRule(keepA, once) == Ok(once);
    assert ProjectRule(keepA, twice) == Ok(once);
    TwoRules(keepA, keepA, once);
    TwoRules(keepA, keepA, twice);
    assert once + once == twice;
  }
}
