// What a declaration is charged for (crates/ikigai-core/src/declare.rs:143-197), stated of the texts and the
// nodes themselves.

module Charges {
  import opened Wrappers
  import opened Text
  import opened Utf8
  import opened Declarations

  // ---- the texts of a node ----

  function Opt(text: Option<string>): seq<string> { if text.Some? then [text.value] else [] }

  function InputTexts(input: InputNode): seq<string> {
    [input.name, input.summary] + Opt(input.class_) + Opt(input.default) + input.oneOf
  }

  function DoorTexts(doors: seq<Door>): seq<string> {
    if doors == [] then [] else [doors[0].pattern, doors[0].endpoint] + DoorTexts(doors[1..])
  }

  function FixTexts(fixes: seq<(string, string)>): seq<string> {
    if fixes == [] then [] else [fixes[0].0, fixes[0].1] + FixTexts(fixes[1..])
  }

  function AllInputTexts(inputs: seq<InputNode>): seq<string> {
    if inputs == [] then [] else InputTexts(inputs[0]) + AllInputTexts(inputs[1..])
  }

  function RuleTexts(rules: seq<RuleNode>): seq<string> {
    if rules == [] then []
    else
      [rules[0].from, rules[0].to] + FixTexts(rules[0].fixes) + AllInputTexts(rules[0].inputs)
      + RuleTexts(rules[1..])
  }

  // Every text the node states of itself, in order.
  function Texts(node: Topology): seq<string> {
    Opt(node.id)
    + match node.kind
      case EndpointSpace(doors) => DoorTexts(doors)
      case Alias(rules, _) => RuleTexts(rules)
      case Mount(prefix) => [prefix]
      case Limit(family, _) => [family]
      case Level(seals, space) => seals + Opt(space)
      case Dynamic(declaration) => [declaration]
      case _ => []
  }

  function Joined(texts: seq<string>): string {
    if texts == [] then "" else texts[0] + Joined(texts[1..])
  }

  // The bytes of all of them.
  function Bytes(texts: seq<string>): nat { |Encode(Joined(texts))| }

  lemma {:induction false} BytesConcat(a: seq<string>, b: seq<string>)
    ensures Bytes(a + b) == Bytes(a) + Bytes(b)
  {
    if a == [] {
      assert a + b == b;
    } else {
      assert (a + b)[1..] == a[1..] + b;
      BytesConcat(a[1..], b);
      EncodeConcat(a[0], Joined(a[1..] + b));
      EncodeConcat(a[0], Joined(a[1..]));
    }
  }

  lemma BytesOne(text: string)
    ensures Bytes([text]) == TextSize(text)
  {
    assert [text][1..] == [] && Joined([]) == "" && text + "" == text;
    assert Joined([text]) == text + Joined([text][1..]);
  }

  lemma BytesTwo(a: string, b: string)
    ensures Bytes([a, b]) == TextSize(a) + TextSize(b)
  {
    assert [a, b] == [a] + [b];
    BytesConcat([a], [b]);
    BytesOne(a);
    BytesOne(b);
  }

  lemma BytesOpt(text: Option<string>)
    ensures Bytes(Opt(text)) == OptText(text)
  {
    if text.Some? {
      BytesOne(text.value);
    }
  }

  lemma {:induction false} SumIsBytes(texts: seq<string>)
    ensures SumText(texts) == Bytes(texts)
  {
    if texts != [] {
      SumIsBytes(texts[1..]);
      EncodeConcat(texts[0], Joined(texts[1..]));
    }
  }

  lemma {:induction false} DoorsAreBytes(doors: seq<Door>)
    ensures DoorsText(doors) == Bytes(DoorTexts(doors))
  {
    if doors != [] {
      DoorsAreBytes(doors[1..]);
      BytesConcat([doors[0].pattern, doors[0].endpoint], DoorTexts(doors[1..]));
      BytesTwo(doors[0].pattern, doors[0].endpoint);
    }
  }

  lemma {:induction false} FixesAreBytes(fixes: seq<(string, string)>)
    ensures FixesText(fixes) == Bytes(FixTexts(fixes))
  {
    if fixes != [] {
      FixesAreBytes(fixes[1..]);
      BytesConcat([fixes[0].0, fixes[0].1], FixTexts(fixes[1..]));
      BytesTwo(fixes[0].0, fixes[0].1);
    }
  }

  lemma InputIsBytes(input: InputNode)
    ensures InputText(input) == Bytes(InputTexts(input))
  {
    var head := [input.name, input.summary];
    BytesConcat(head + Opt(input.class_) + Opt(input.default), input.oneOf);
    BytesConcat(head + Opt(input.class_), Opt(input.default));
    BytesConcat(head, Opt(input.class_));
    BytesTwo(input.name, input.summary);
    BytesOpt(input.class_);
    BytesOpt(input.default);
    SumIsBytes(input.oneOf);
  }

  lemma {:induction false} InputsAreBytes(inputs: seq<InputNode>)
    ensures InputsText(inputs) == Bytes(AllInputTexts(inputs))
  {
    if inputs != [] {
      InputsAreBytes(inputs[1..]);
      InputIsBytes(inputs[0]);
      BytesConcat(InputTexts(inputs[0]), AllInputTexts(inputs[1..]));
    }
  }

  lemma {:induction false} RulesAreBytes(rules: seq<RuleNode>)
    ensures RulesText(rules) == Bytes(RuleTexts(rules))
  {
    if rules != [] {
      var rule := rules[0];
      RulesAreBytes(rules[1..]);
      FixesAreBytes(rule.fixes);
      InputsAreBytes(rule.inputs);
      BytesTwo(rule.from, rule.to);
      BytesConcat([rule.from, rule.to] + FixTexts(rule.fixes) + AllInputTexts(rule.inputs), RuleTexts(rules[1..]));
      BytesConcat([rule.from, rule.to] + FixTexts(rule.fixes), AllInputTexts(rule.inputs));
      BytesConcat([rule.from, rule.to], FixTexts(rule.fixes));
    }
  }

  // A node is charged the bytes of every text it states of itself.
  lemma OwnTextIsBytes(node: Topology)
    ensures OwnText(node) == Bytes(Texts(node))
  {
    var rest := match node.kind
      case EndpointSpace(doors) => DoorTexts(doors)
      case Alias(rules, _) => RuleTexts(rules)
      case Mount(prefix) => [prefix]
      case Limit(family, _) => [family]
      case Level(seals, space) => seals + Opt(space)
      case Dynamic(declaration) => [declaration]
      case _ => [];
    BytesOpt(node.id);
    BytesConcat(Opt(node.id), rest);
    match node.kind
    case EndpointSpace(doors) => DoorsAreBytes(doors);
    case Alias(rules, _) => RulesAreBytes(rules);
    case Mount(prefix) => BytesOne(prefix);
    case Limit(family, _) => BytesOne(family);
    case Level(seals, space) =>
      SumIsBytes(seals);
      BytesOpt(space);
      BytesConcat(seals, Opt(space));
    case Dynamic(declaration) => BytesOne(declaration);
    case _ =>
  }

  // ---- the nodes of a node ----

  // What a rendering gives a node of its own: the space, each door, each rule, each argument it fixes and
  // each input it declares.
  datatype Mark =
    | OfSpace
    | OfDoor(door: Door)
    | OfRule(rule: RuleNode)
    | OfFix(fix: (string, string))
    | OfInput(input: InputNode)

  function RuleMarks(rule: RuleNode): seq<Mark> {
    [OfRule(rule)] + seq(|rule.fixes|, k requires 0 <= k < |rule.fixes| => OfFix(rule.fixes[k]))
    + seq(|rule.inputs|, k requires 0 <= k < |rule.inputs| => OfInput(rule.inputs[k]))
  }

  function RulesMarks(rules: seq<RuleNode>): seq<Mark> {
    if rules == [] then [] else RuleMarks(rules[0]) + RulesMarks(rules[1..])
  }

  function Marks(node: Topology): seq<Mark> {
    [OfSpace]
    + match node.kind
      case EndpointSpace(doors) => seq(|doors|, d requires 0 <= d < |doors| => OfDoor(doors[d]))
      case Alias(rules, _) => RulesMarks(rules)
      case _ => []
  }

  lemma {:induction false} RulesAreMarks(rules: seq<RuleNode>)
    ensures RulesNodes(rules) == |RulesMarks(rules)|
  {
    if rules != [] {
      RulesAreMarks(rules[1..]);
    }
  }

  lemma OwnNodesAreMarks(node: Topology)
    ensures OwnNodes(node) == |Marks(node)|
  {
    if node.kind.Alias? {
      RulesAreMarks(node.kind.rules);
    }
  }
}
