// The canonical form of a contract (crates/ikigai-core/src/contract.rs, with the framing of
// crates/ikigai-core/src/hashing.rs): the bytes fed to the hasher for an endpoint id and an
// action, in both forms and with every optional tail.
//
// Text is its UTF-8 bytes. The digest taken of the bytes is not part of this model.

module Framing {
  import opened Wrappers
  import opened Utf8
  import opened Sorting

  type Bytes = seq<Byte>

  // What fits a length prefix: every length the machine can hold does.
  const LENGTHS: nat := 0x1_0000_0000_0000_0000

  // The low `k` bytes of a number, least significant first.
  function LittleEndian(n: nat, k: nat): (bytes: seq<Byte>)
    ensures |bytes| == k
  {
    if k == 0 then [] else [n % 256] + LittleEndian(n / 256, k - 1)
  }

  function U64(n: nat): (bytes: seq<Byte>)
    ensures |bytes| == 8
  {
    LittleEndian(n, 8)
  }

  function Str(s: Bytes): seq<Byte> { U64(|s|) + s }

  function Opt(o: Option<Bytes>): seq<Byte> {
    match o
    case None => [0]
    case Some(s) => [1] + Str(s)
  }

  function Strs(items: seq<Bytes>): seq<Byte> {
    if items == [] then [] else Str(items[0]) + Strs(items[1..])
  }

  // A list: its count, then its items.
  function Counted(items: seq<Bytes>): seq<Byte> { U64(|items|) + Strs(items) }

  function TextLess(a: Bytes, b: Bytes): bool { LexLess(a, b) }

  // A set: sorted, deduplicated, counted.
  function SetOf(values: seq<Bytes>): seq<Byte> { Counted(SortDedup(values, TextLess)) }

  // ---- no two framings run into each other ----

  predicate Short(s: Bytes) { |s| < LENGTHS }

  predicate AllShort(items: seq<Bytes>) {
    |items| < LENGTHS && forall i | 0 <= i < |items| :: Short(items[i])
  }

  function Power256(k: nat): nat { if k == 0 then 1 else 256 * Power256(k - 1) }

  lemma {:induction false} LittleEndianInjective(a: nat, b: nat, k: nat)
    requires LittleEndian(a, k) == LittleEndian(b, k) && a < Power256(k) && b < Power256(k)
    ensures a == b
  {
    if k > 0 {
      assert LittleEndian(a, k)[0] == LittleEndian(b, k)[0];
      assert LittleEndian(a, k)[1..] == LittleEndian(a / 256, k - 1);
      assert LittleEndian(b, k)[1..] == LittleEndian(b / 256, k - 1);
      LittleEndianInjective(a / 256, b / 256, k - 1);
    }
  }

  lemma U64Injective(a: nat, b: nat)
    requires U64(a) == U64(b) && a < LENGTHS && b < LENGTHS
    ensures a == b
  {
    assert Power256(4) == 0x1_0000_0000;
    assert Power256(8) == LENGTHS;
    LittleEndianInjective(a, b, 8);
  }

  // A length prefix can be read off the front.
  lemma U64Cancels(n: nat, x: seq<Byte>, m: nat, y: seq<Byte>)
    requires U64(n) + x == U64(m) + y && n < LENGTHS && m < LENGTHS
    ensures n == m && x == y
  {
    SameFront(U64(n), x, U64(m), y);
    U64Injective(n, m);
  }

  lemma SameFront(a: seq<Byte>, x: seq<Byte>, b: seq<Byte>, y: seq<Byte>)
    requires a + x == b + y && |a| == |b|
    ensures a == b && x == y
  {
    assert (a + x)[..|a|] == a && (b + y)[..|b|] == b;
    assert (a + x)[|a|..] == x && (b + y)[|b|..] == y;
  }

  // A framed text can be read off the front of a stream, and the rest is what is left.
  lemma StrCancels(a: Bytes, x: seq<Byte>, b: Bytes, y: seq<Byte>)
    requires Str(a) + x == Str(b) + y && Short(a) && Short(b)
    ensures a == b && x == y
  {
    Joined(U64(|a|), a, x);
    Joined(U64(|b|), b, y);
    U64Cancels(|a|, a + x, |b|, b + y);
    SameFront(a, x, b, y);
  }

  predicate ShortOpt(o: Option<Bytes>) { o.Some? ==> Short(o.value) }

  // A tag byte can be read off the front.
  lemma TagCancels(a: Byte, x: seq<Byte>, b: Byte, y: seq<Byte>)
    requires [a] + x == [b] + y
    ensures a == b && x == y
  {
    SameFront([a], x, [b], y);
    assert [a][0] == [b][0];
  }

  function OptBody(o: Option<Bytes>, rest: seq<Byte>): seq<Byte> {
    if o.Some? then Str(o.value) + rest else rest
  }

  lemma OptTagged(o: Option<Bytes>, rest: seq<Byte>)
    ensures Opt(o) + rest == [if o.Some? then 1 else 0] + OptBody(o, rest)
  {
  }

  lemma OptCancels(a: Option<Bytes>, x: seq<Byte>, b: Option<Bytes>, y: seq<Byte>)
    requires Opt(a) + x == Opt(b) + y && ShortOpt(a) && ShortOpt(b)
    ensures a == b && x == y
  {
    OptTagged(a, x);
    OptTagged(b, y);
    TagCancels(if a.Some? then 1 else 0, OptBody(a, x), if b.Some? then 1 else 0, OptBody(b, y));
    if a.Some? {
      StrCancels(a.value, x, b.value, y);
    }
  }

  lemma {:induction false} StrsCancel(a: seq<Bytes>, x: seq<Byte>, b: seq<Bytes>, y: seq<Byte>)
    requires |a| == |b| && Strs(a) + x == Strs(b) + y
    requires forall i | 0 <= i < |a| :: Short(a[i]) && Short(b[i])
    ensures a == b && x == y
  {
    if a == [] {
      assert [] + x == x && [] + y == y;
    } else {
      Joined(Str(a[0]), Strs(a[1..]), x);
      Joined(Str(b[0]), Strs(b[1..]), y);
      StrCancels(a[0], Strs(a[1..]) + x, b[0], Strs(b[1..]) + y);
      StrsCancel(a[1..], x, b[1..], y);
      assert a == [a[0]] + a[1..] && b == [b[0]] + b[1..];
    }
  }

  lemma CountedCancels(a: seq<Bytes>, x: seq<Byte>, b: seq<Bytes>, y: seq<Byte>)
    requires Counted(a) + x == Counted(b) + y && AllShort(a) && AllShort(b)
    ensures a == b && x == y
  {
    Joined(U64(|a|), Strs(a), x);
    Joined(U64(|b|), Strs(b), y);
    U64Cancels(|a|, Strs(a) + x, |b|, Strs(b) + y);
    StrsCancel(a, x, b, y);
  }

  lemma TextsOrder(all: set<Bytes>)
    ensures Orders(TextLess, all)
  {
    forall x, y | x in all && y in all && x != y ensures TextLess(x, y) != TextLess(y, x) {
      LexTotal(x, y);
    }
    forall x, y, z | x in all && y in all && z in all && TextLess(x, y) && TextLess(y, z) && x != y && y != z
      ensures x != z && TextLess(x, z)
    {
      LexTransitive(x, y, z);
      LexIrreflexive(x);
    }
  }

  lemma SortedShort(values: seq<Bytes>)
    requires AllShort(values)
    ensures AllShort(SortDedup(values, TextLess))
  {
    TextsOrder(Elements(values));
    SortDedupSorts(values, TextLess, Elements(values));
    SortDedupShorter(values, TextLess);
    var sorted := SortDedup(values, TextLess);
    forall i | 0 <= i < |sorted| ensures Short(sorted[i]) {
      assert sorted[i] in sorted && sorted[i] in values;
    }
  }

  // A framed set can be read off the front, as a set.
  lemma SetCancels(a: seq<Bytes>, x: seq<Byte>, b: seq<Bytes>, y: seq<Byte>)
    requires SetOf(a) + x == SetOf(b) + y && AllShort(a) && AllShort(b)
    ensures Elements(a) == Elements(b) && x == y
  {
    SortedShort(a);
    SortedShort(b);
    CountedCancels(SortDedup(a, TextLess), x, SortDedup(b, TextLess), y);
    TextsOrder(Elements(a) + Elements(b));
    SortDedupIsSet(a, b, TextLess);
  }

  lemma SetIsOrderFree(a: seq<Bytes>, b: seq<Bytes>)
    requires Elements(a) == Elements(b)
    ensures SetOf(a) == SetOf(b)
  {
    TextsOrder(Elements(a) + Elements(b));
    SortDedupIsSet(a, b, TextLess);
  }
}

module Contracts {
  import opened Wrappers
  import opened Utf8
  import opened Sorting
  import opened Framing
  import opened ContractIris

  datatype InputSource = Argument | Binding
  datatype ListSeparator = Comma | Whitespace | CommaOrWhitespace | Newline
  datatype ValueNote = ValueNote(summary: Bytes, tags: seq<Bytes>, needs: seq<Bytes>)

  // One declared input. `values` is a map in key order, as its entries.
  datatype ArgSpec = ArgSpec(
    name: Bytes,
    summary: Bytes,
    required: bool,
    source: InputSource,
    class_: Option<Bytes>,
    default: Option<Bytes>,
    oneOf: seq<Bytes>,
    enumerated: bool,
    examples: seq<Bytes>,
    needs: seq<Bytes>,
    list: Option<ListSeparator>,
    values: seq<(Bytes, ValueNote)>,
    readsBody: bool,
    fixed: Option<Bytes>)
  {
    predicate IsEnumerated() { enumerated || oneOf != [] }
    predicate EmptyEnumeration() { IsEnumerated() && oneOf == [] }
  }

  datatype GroupKind = ExactlyOne | AtLeastOne | AtMostOne
  datatype InputGroup = InputGroup(kind: GroupKind, members: seq<Bytes>, pipe: Option<Bytes>)
  datatype Arguments = Closed | Open(summary: Bytes) | Envelope(carrier: Bytes)
  datatype OutputFrom = FromInput(name: Bytes) | FromOrigin
  datatype FailureClass = Transient | RetryAfter | OverBudget | Denied | Refused | Permanent | Unknown
  datatype Failures = Unstated | Only(classes: seq<FailureClass>)

  datatype ActionSpec = ActionSpec(
    verb: Verb,
    summary: Bytes,
    inputs: seq<ArgSpec>,
    outputs: seq<Bytes>,
    requires_: seq<Bytes>,
    groups: seq<InputGroup>,
    arguments: Arguments,
    outputFrom: Option<OutputFrom>,
    failures: Failures,
    existenceSensitive: bool)

  function SeparatorWord(list: ListSeparator): string {
    match list
    case Comma => "comma"
    case Whitespace => "whitespace"
    case CommaOrWhitespace => "comma-or-whitespace"
    case Newline => "newline"
  }

  function KindWord(kind: GroupKind): string {
    match kind
    case ExactlyOne => "exactly-one"
    case AtLeastOne => "at-least-one"
    case AtMostOne => "at-most-one"
  }

  function FailureWord(f: FailureClass): string {
    match f
    case Transient => "transient"
    case RetryAfter => "retry-after"
    case OverBudget => "over-budget"
    case Denied => "denied"
    case Refused => "refused"
    case Permanent => "permanent"
    case Unknown => "unknown"
  }

  const FORM_V1: Bytes := Encode("ikigai:contract:v1")
  const FORM_V2: Bytes := Encode("ikigai:contract:v2")

  // ---- what a contract means: set-valued fields as sets ----

  datatype CanonNote = CanonNote(summary: Bytes, tags: set<Bytes>, needs: set<Bytes>)

  datatype Base = Base(
    name: Bytes,
    summary: Bytes,
    required: bool,
    source: InputSource,
    class_: Option<Bytes>,
    default: Option<Bytes>,
    oneOf: set<Bytes>,
    emptyEnumeration: bool,
    examples: set<Bytes>,
    needs: set<Bytes>,
    list: Option<ListSeparator>,
    values: seq<(Bytes, CanonNote)>)

  datatype CanonInput = CanonInput(base: Base, readsBody: bool, fixed: Option<Bytes>)
  datatype CanonGroup = CanonGroup(kind: GroupKind, members: set<Bytes>, pipe: Option<Bytes>)

  datatype CanonAction = CanonAction(
    verb: Verb,
    summary: Bytes,
    inputs: set<CanonInput>,
    outputs: set<Bytes>,
    requires_: set<Bytes>,
    groups: set<CanonGroup>,
    arguments: Arguments,
    outputFrom: Option<OutputFrom>,
    failures: Option<set<FailureClass>>,
    existenceSensitive: bool)

  ghost function NoteOf(n: ValueNote): CanonNote { CanonNote(n.summary, Elements(n.tags), Elements(n.needs)) }

  ghost function NotesOf(values: seq<(Bytes, ValueNote)>): seq<(Bytes, CanonNote)> {
    if values == [] then [] else [(values[0].0, NoteOf(values[0].1))] + NotesOf(values[1..])
  }

  ghost function BaseOf(i: ArgSpec): Base {
    Base(i.name, i.summary, i.required, i.source, i.class_, i.default, Elements(i.oneOf), i.EmptyEnumeration(),
         Elements(i.examples), Elements(i.needs), i.list, NotesOf(i.values))
  }

  ghost function InputOf(i: ArgSpec): CanonInput { CanonInput(BaseOf(i), i.readsBody, i.fixed) }
  ghost function GroupOf(g: InputGroup): CanonGroup { CanonGroup(g.kind, Elements(g.members), g.pipe) }

  ghost function Inputs(a: ActionSpec): set<CanonInput> { set i | i in a.inputs :: InputOf(i) }

  ghost function Canon(a: ActionSpec): CanonAction {
    CanonAction(a.verb, a.summary, Inputs(a), Elements(a.outputs), Elements(a.requires_),
                set g | g in a.groups :: GroupOf(g), a.arguments, a.outputFrom,
                match a.failures case Unstated => None case Only(classes) => Some(Elements(classes)),
                a.existenceSensitive)
  }

  // ---- the bytes ----

  function Flag(b: bool): seq<Byte> { [if b then 1 else 0] }
  function SourceByte(source: InputSource): seq<Byte> { [if source.Argument? then 0 else 1] }

  // The fields both forms feed of an input.
  function HeadBytes(i: ArgSpec): seq<Byte> {
    Str(i.name) + (Str(i.summary) + (Flag(i.required) + (SourceByte(i.source)
    + (Opt(i.class_) + (Opt(i.default) + SetOf(i.oneOf))))))
  }

  function NoteBytes(value: Bytes, n: ValueNote): seq<Byte> {
    Str(value) + (Str(n.summary) + (SetOf(n.tags) + SetOf(n.needs)))
  }

  function NotesBytes(values: seq<(Bytes, ValueNote)>): seq<Byte> {
    if values == [] then [] else NoteBytes(values[0].0, values[0].1) + NotesBytes(values[1..])
  }

  function ListWord(list: Option<ListSeparator>): Option<Bytes> {
    if list.Some? then Some(Encode(SeparatorWord(list.value))) else None
  }

  // One input whole, as the second form takes it.
  function InputBytes(i: ArgSpec): seq<Byte> {
    HeadBytes(i) + (SetOf(i.needs) + (Opt(ListWord(i.list)) + (U64(|i.values|) + (NotesBytes(i.values)
    + (Flag(i.EmptyEnumeration()) + SetOf(i.examples))))))
  }

  function GroupBytes(g: InputGroup): seq<Byte> {
    Str(Encode(KindWord(g.kind))) + (SetOf(g.members) + Opt(g.pipe))
  }

  function ArgumentsBytes(arguments: Arguments): seq<Byte> {
    match arguments
    case Closed => [0]
    case Open(summary) => [1] + Str(summary)
    case Envelope(carrier) => [2] + Str(carrier)
  }

  function OutputFromBytes(from: Option<OutputFrom>): seq<Byte> {
    match from
    case None => [0]
    case Some(FromInput(name)) => [1] + Str(name)
    case Some(FromOrigin) => [2]
  }

  // Whether an input uses anything the first form cannot carry.
  predicate InputUsesV2(i: ArgSpec) {
    i.needs != [] || i.list.Some? || i.values != [] || i.examples != [] || i.EmptyEnumeration()
    || i.readsBody || i.fixed.Some?
  }

  predicate UsesV2(a: ActionSpec) {
    a.failures.Only? || a.existenceSensitive || a.groups != [] || a.arguments != Closed || a.outputFrom.Some?
    || exists k | 0 <= k < |a.inputs| :: InputUsesV2(a.inputs[k])
  }

  // ---- the first form ----

  // Set-valued fields sorted and deduplicated, and the enumeration as what it means, which is
  // how two inputs compare equal.
  function CanonicalInput(i: ArgSpec): ArgSpec {
    i.(oneOf := SortDedup(i.oneOf, TextLess), enumerated := i.IsEnumerated())
  }

  function OptKey(o: Option<Bytes>): seq<int> { if o.Some? then [0] + o.value else [] }

  // What the inputs are ordered by, field after field: name first, then every other field the
  // first form carries, false before true, a missing text before any other.
  function KeyOf(i: ArgSpec): seq<seq<int>> {
    [i.name, i.summary, Flag(i.required), SourceByte(i.source), OptKey(i.class_), OptKey(i.default)] + i.oneOf
  }

  function KeyLess(a: ArgSpec, b: ArgSpec): bool { ListLess(KeyOf(a), KeyOf(b)) }

  function CanonicalInputs(inputs: seq<ArgSpec>): seq<ArgSpec> {
    seq(|inputs|, k requires 0 <= k < |inputs| => CanonicalInput(inputs[k]))
  }

  function SortedInputs(a: ActionSpec): seq<ArgSpec> { SortDedup(CanonicalInputs(a.inputs), KeyLess) }

  function HeadsBytes(inputs: seq<ArgSpec>): seq<Byte> {
    if inputs == [] then [] else HeadBytes(inputs[0]) + HeadsBytes(inputs[1..])
  }

  function BodyV1(a: ActionSpec): seq<Byte> {
    U64(|SortedInputs(a)|) + (HeadsBytes(SortedInputs(a)) + (SetOf(a.outputs) + SetOf(a.requires_)))
  }

  // ---- the second form ----

  function InputItems(a: ActionSpec): seq<Bytes> {
    seq(|a.inputs|, k requires 0 <= k < |a.inputs| => InputBytes(a.inputs[k]))
  }

  function GroupItems(a: ActionSpec): seq<Bytes> {
    seq(|a.groups|, k requires 0 <= k < |a.groups| => GroupBytes(a.groups[k]))
  }

  function FailureItems(classes: seq<FailureClass>): seq<Bytes> {
    seq(|classes|, k requires 0 <= k < |classes| => Str(Encode(FailureWord(classes[k]))))
  }

  // The names of the inputs read as a body, in order.
  function Readers(inputs: seq<ArgSpec>): seq<Bytes> {
    if inputs == [] then []
    else (if inputs[0].readsBody then [inputs[0].name] else []) + Readers(inputs[1..])
  }

  // Each fixed input as its name, a NUL and the value.
  function FixedPairs(inputs: seq<ArgSpec>): seq<Bytes> {
    if inputs == [] then []
    else
      (if inputs[0].fixed.Some? then [inputs[0].name + [0] + inputs[0].fixed.value] else []) + FixedPairs(inputs[1..])
  }

  function FailureTail(failures: Failures): seq<Byte> {
    match failures
    case Unstated => []
    case Only(classes) => [1] + SetOf(FailureItems(classes))
  }

  function ExistenceTail(sensitive: bool): seq<Byte> { if sensitive then [2] else [] }

  function SetTail(tag: Byte, values: seq<Bytes>): seq<Byte> {
    if values == [] then [] else [tag] + SetOf(values)
  }

  // The optional tails: each is fed only when there is something to say, under its own byte.
  function Tails(a: ActionSpec): seq<Byte> {
    FailureTail(a.failures) + (ExistenceTail(a.existenceSensitive)
    + (SetTail(3, Readers(a.inputs)) + SetTail(4, FixedPairs(a.inputs))))
  }

  function BodyV2(a: ActionSpec): seq<Byte> {
    SetOf(InputItems(a)) + (SetOf(a.outputs) + (SetOf(a.requires_) + (SetOf(GroupItems(a))
    + (ArgumentsBytes(a.arguments) + (OutputFromBytes(a.outputFrom) + Tails(a))))))
  }

  // Everything fed to the hasher for an endpoint id and an action.
  function Fed(id: Bytes, a: ActionSpec): seq<Byte> {
    Str(if UsesV2(a) then FORM_V2 else FORM_V1)
    + (Str(id) + (Str(Encode(VerbSegment(a.verb))) + (Str(a.summary) + if UsesV2(a) then BodyV2(a) else BodyV1(a))))
  }
}
