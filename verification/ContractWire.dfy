// Reading back what is fed (crates/ikigai-core/src/contract.rs:95-181, 428-468 and 577-679;
// crates/ikigai-core/src/hashing.rs:9-39): a reader that takes the fields of a contract off the stream
// one by one, in the order they are laid down, gets each of them whole and nothing is left over.

module ContractWire {
  import opened Wrappers
  import opened Utf8
  import opened Sorting
  import opened Framing
  import opened ContractIris
  import opened Contracts
  import opened ContractIdentity

  // ---- reading ----

  datatype Reading<+T> = Unreadable | Reading(value: T, rest: Bytes) {
    predicate IsFailure() { Unreadable? }
    function PropagateFailure<U>(): Reading<U>
      requires IsFailure()
    {
      Unreadable
    }
    function Extract(): (T, Bytes)
      requires !IsFailure()
    {
      (value, rest)
    }
  }

  function ReadByte(s: Bytes): Reading<Byte> { if s == [] then Unreadable else Reading(s[0], s[1..]) }

  function Little(s: Bytes): nat { if s == [] then 0 else s[0] + 256 * Little(s[1..]) }

  // Eight bytes, the least significant first.
  function ReadCount(s: Bytes): Reading<nat> { if |s| < 8 then Unreadable else Reading(Little(s[..8]), s[8..]) }

  function ReadText(s: Bytes): Reading<Bytes> {
    var (n, s) :- ReadCount(s);
    if |s| < n then Unreadable else Reading(s[..n], s[n..])
  }

  function ReadOption(s: Bytes): Reading<Option<Bytes>> {
    var (tag, s) :- ReadByte(s);
    if tag == 0 then Reading(None, s)
    else
      var (text, s) :- ReadText(s);
      if tag == 1 then Reading(Some(text), s) else Unreadable
  }

  function ReadTexts(n: nat, s: Bytes): Reading<seq<Bytes>> {
    if n == 0 then Reading([], s)
    else
      var (first, s) :- ReadText(s);
      var (more, s) :- ReadTexts(n - 1, s);
      Reading([first] + more, s)
  }

  function ReadSet(s: Bytes): Reading<seq<Bytes>> {
    var (n, s) :- ReadCount(s);
    ReadTexts(n, s)
  }

  datatype Head = Head(
    name: Bytes, summary: Bytes, required: Byte, source: Byte, class_: Option<Bytes>, default: Option<Bytes>,
    oneOf: seq<Bytes>)

  function ReadHead(s: Bytes): Reading<Head> {
    var (name, s) :- ReadText(s);
    var (summary, s) :- ReadText(s);
    var (required, s) :- ReadByte(s);
    var (source, s) :- ReadByte(s);
    var (class_, s) :- ReadOption(s);
    var (default, s) :- ReadOption(s);
    var (oneOf, s) :- ReadSet(s);
    Reading(Head(name, summary, required, source, class_, default, oneOf), s)
  }

  function ReadHeads(n: nat, s: Bytes): Reading<seq<Head>> {
    if n == 0 then Reading([], s)
    else
      var (first, s) :- ReadHead(s);
      var (more, s) :- ReadHeads(n - 1, s);
      Reading([first] + more, s)
  }

  datatype Note = Note(value: Bytes, summary: Bytes, tags: seq<Bytes>, needs: seq<Bytes>)

  function ReadNotes(n: nat, s: Bytes): Reading<seq<Note>> {
    if n == 0 then Reading([], s)
    else
      var (value, s) :- ReadText(s);
      var (summary, s) :- ReadText(s);
      var (tags, s) :- ReadSet(s);
      var (needs, s) :- ReadSet(s);
      var (more, s) :- ReadNotes(n - 1, s);
      Reading([Note(value, summary, tags, needs)] + more, s)
  }

  datatype Item = Item(
    head: Head, needs: seq<Bytes>, list: Option<Bytes>, notes: seq<Note>, emptyEnumeration: Byte, examples: seq<Bytes>)

  function ReadItem(s: Bytes): Reading<Item> {
    var (head, s) :- ReadHead(s);
    var (needs, s) :- ReadSet(s);
    var (list, s) :- ReadOption(s);
    var (n, s) :- ReadCount(s);
    var (notes, s) :- ReadNotes(n, s);
    var (empty, s) :- ReadByte(s);
    var (examples, s) :- ReadSet(s);
    Reading(Item(head, needs, list, notes, empty, examples), s)
  }

  datatype Group = Group(kind: Bytes, members: seq<Bytes>, pipe: Option<Bytes>)

  function ReadGroup(s: Bytes): Reading<Group> {
    var (kind, s) :- ReadText(s);
    var (members, s) :- ReadSet(s);
    var (pipe, s) :- ReadOption(s);
    Reading(Group(kind, members, pipe), s)
  }

  // A byte, and a text after all but the bytes that have none.
  function ReadTagged(s: Bytes, bare: set<Byte>): Reading<(Byte, Option<Bytes>)> {
    var (tag, s) :- ReadByte(s);
    if tag in bare then Reading((tag, None), s)
    else
      var (text, s) :- ReadText(s);
      Reading((tag, Some(text)), s)
  }

  // A set under its own byte, or nothing.
  function ReadTail(tag: Byte, s: Bytes): Reading<Option<seq<Bytes>>> {
    if s == [] || s[0] != tag then Reading(None, s)
    else
      var (values, s) :- ReadSet(s[1..]);
      Reading(Some(values), s)
  }

  function ReadMark(tag: Byte, s: Bytes): Reading<bool> {
    if s == [] || s[0] != tag then Reading(false, s) else Reading(true, s[1..])
  }

  datatype Header = Header(form: Bytes, id: Bytes, verb: Bytes, summary: Bytes)

  function ReadHeader(s: Bytes): Reading<Header> {
    var (form, s) :- ReadText(s);
    var (id, s) :- ReadText(s);
    var (verb, s) :- ReadText(s);
    var (summary, s) :- ReadText(s);
    Reading(Header(form, id, verb, summary), s)
  }

  datatype Body =
    | First(heads: seq<Head>, outputs: seq<Bytes>, scopes: seq<Bytes>)
    | Second(
        items: seq<Bytes>, outputs: seq<Bytes>, scopes: seq<Bytes>, groups: seq<Bytes>,
        arguments: (Byte, Option<Bytes>), outputFrom: (Byte, Option<Bytes>), failures: Option<seq<Bytes>>,
        sensitive: bool, readers: Option<seq<Bytes>>, fixed: Option<seq<Bytes>>)

  function ReadFirst(s: Bytes): Reading<Body> {
    var (n, s) :- ReadCount(s);
    var (heads, s) :- ReadHeads(n, s);
    var (outputs, s) :- ReadSet(s);
    var (scopes, s) :- ReadSet(s);
    Reading(First(heads, outputs, scopes), s)
  }

  function ReadSecond(s: Bytes): Reading<Body> {
    var (items, s) :- ReadSet(s);
    var (outputs, s) :- ReadSet(s);
    var (scopes, s) :- ReadSet(s);
    var (groups, s) :- ReadSet(s);
    var (arguments, s) :- ReadTagged(s, {0});
    var (outputFrom, s) :- ReadTagged(s, {0, 2});
    var (failures, s) :- ReadTail(1, s);
    var (sensitive, s) :- ReadMark(2, s);
    var (readers, s) :- ReadTail(3, s);
    var (fixed, s) :- ReadTail(4, s);
    Reading(Second(items, outputs, scopes, groups, arguments, outputFrom, failures, sensitive, readers, fixed), s)
  }

  function ReadContract(s: Bytes): Reading<(Header, Body)> {
    var (header, s) :- ReadHeader(s);
    var (body, s) :- if header.form == Encode("ikigai:contract:v2") then ReadSecond(s) else ReadFirst(s);
    Reading((header, body), s)
  }

  // ---- each piece reads back ----

  lemma {:induction false} LittleReads(n: nat, k: nat)
    requires n < Power256(k)
    ensures Little(LittleEndian(n, k)) == n
  {
    if k > 0 {
      assert LittleEndian(n, k)[1..] == LittleEndian(n / 256, k - 1);
      LittleReads(n / 256, k - 1);
    }
  }

  lemma CountReads(n: nat, x: Bytes)
    requires n < LENGTHS
    ensures ReadCount(U64(n) + x) == Reading(n, x)
  {
    assert Power256(4) == 0x1_0000_0000;
    assert Power256(8) == LENGTHS;
    LittleReads(n, 8);
    assert (U64(n) + x)[..8] == U64(n) && (U64(n) + x)[8..] == x;
  }

  lemma TextReads(text: Bytes, x: Bytes)
    requires Short(text)
    ensures ReadText(Str(text) + x) == Reading(text, x)
  {
    Joined(U64(|text|), text, x);
    CountReads(|text|, text + x);
    assert (text + x)[..|text|] == text && (text + x)[|text|..] == x;
  }

  lemma ByteReads(b: Byte, x: Bytes)
    ensures ReadByte([b] + x) == Reading(b, x)
  {
  }

  lemma OptionReads(o: Option<Bytes>, x: Bytes)
    requires ShortOpt(o)
    ensures ReadOption(Opt(o) + x) == Reading(o, x)
  {
    match o
    case None => ByteReads(0, x);
    case Some(text) =>
      Joined([1], Str(text), x);
      ByteReads(1, Str(text) + x);
      TextReads(text, x);
  }

  lemma {:induction false} TextsRead(items: seq<Bytes>, x: Bytes)
    requires forall i | 0 <= i < |items| :: Short(items[i])
    ensures ReadTexts(|items|, Strs(items) + x) == Reading(items, x)
  {
    if items == [] {
      assert [] + x == x;
    } else {
      Joined(Str(items[0]), Strs(items[1..]), x);
      TextReads(items[0], Strs(items[1..]) + x);
      TextsRead(items[1..], x);
      assert items == [items[0]] + items[1..];
    }
  }

  function Canonical(values: seq<Bytes>): seq<Bytes> { SortDedup(values, TextLess) }

  lemma SetReads(values: seq<Bytes>, x: Bytes)
    requires AllShort(values)
    ensures ReadSet(SetOf(values) + x) == Reading(Canonical(values), x)
  {
    var sorted := Canonical(values);
    SortedShort(values);
    Joined(U64(|sorted|), Strs(sorted), x);
    CountReads(|sorted|, Strs(sorted) + x);
    TextsRead(sorted, x);
  }

  function HeadOf(i: ArgSpec): Head {
    Head(i.name, i.summary, if i.required then 1 else 0, if i.source.Argument? then 0 else 1, i.class_, i.default,
         Canonical(i.oneOf))
  }

  lemma HeadReads(i: ArgSpec, x: Bytes)
    requires ShortInput(i)
    ensures ReadHead(HeadBytes(i) + x) == Reading(HeadOf(i), x)
  {
    HeadRegroups(i, x);
    var x1 := SetOf(i.oneOf) + x;
    var x2 := Opt(i.default) + x1;
    var x3 := Opt(i.class_) + x2;
    var x4 := SourceByte(i.source) + x3;
    var x5 := Flag(i.required) + x4;
    TextReads(i.name, Str(i.summary) + x5);
    TextReads(i.summary, x5);
    ByteReads(Flag(i.required)[0], x4);
    ByteReads(SourceByte(i.source)[0], x3);
    OptionReads(i.class_, x2);
    OptionReads(i.default, x1);
    SetReads(i.oneOf, x);
  }

  function HeadsOf(inputs: seq<ArgSpec>): seq<Head> {
    if inputs == [] then [] else [HeadOf(inputs[0])] + HeadsOf(inputs[1..])
  }

  lemma {:induction false} HeadsRead(inputs: seq<ArgSpec>, x: Bytes)
    requires forall k | 0 <= k < |inputs| :: ShortInput(inputs[k])
    ensures ReadHeads(|inputs|, HeadsBytes(inputs) + x) == Reading(HeadsOf(inputs), x)
  {
    if inputs == [] {
      assert [] + x == x;
    } else {
      HeadsUnfold(inputs, x);
      HeadReads(inputs[0], HeadsBytes(inputs[1..]) + x);
      HeadsRead(inputs[1..], x);
    }
  }

  function NotesRead(values: seq<(Bytes, ValueNote)>): seq<Note> {
    if values == [] then []
    else
      [Note(values[0].0, values[0].1.summary, Canonical(values[0].1.tags), Canonical(values[0].1.needs))]
      + NotesRead(values[1..])
  }

  lemma {:induction false} NotesReadBack(values: seq<(Bytes, ValueNote)>, x: Bytes)
    requires forall k | 0 <= k < |values| :: ShortNote(values[k])
    ensures ReadNotes(|values|, NotesBytes(values) + x) == Reading(NotesRead(values), x)
  {
    if values == [] {
      assert [] + x == x;
    } else {
      var value, n, y := values[0].0, values[0].1, NotesBytes(values[1..]) + x;
      NotesUnfold(values, x);
      NoteRegroups(value, n, y);
      TextReads(value, Str(n.summary) + (SetOf(n.tags) + (SetOf(n.needs) + y)));
      TextReads(n.summary, SetOf(n.tags) + (SetOf(n.needs) + y));
      SetReads(n.tags, SetOf(n.needs) + y);
      SetReads(n.needs, y);
      NotesReadBack(values[1..], x);
    }
  }

  function ItemOf(i: ArgSpec): Item {
    Item(HeadOf(i), Canonical(i.needs), ListWord(i.list), NotesRead(i.values), if i.EmptyEnumeration() then 1 else 0,
         Canonical(i.examples))
  }

  // One input, whole: every field of it under its own name.
  lemma ItemReads(i: ArgSpec)
    requires ShortInput(i)
    ensures ReadItem(InputBytes(i)) == Reading(ItemOf(i), [])
  {
    var x1 := Flag(i.EmptyEnumeration()) + SetOf(i.examples);
    var x2 := NotesBytes(i.values) + x1;
    var x3 := U64(|i.values|) + x2;
    var x4 := Opt(ListWord(i.list)) + x3;
    HeadReads(i, SetOf(i.needs) + x4);
    SetReads(i.needs, x4);
    ListWordShort(i.list);
    OptionReads(ListWord(i.list), x3);
    CountReads(|i.values|, x2);
    NotesReadBack(i.values, x1);
    ByteReads(Flag(i.EmptyEnumeration())[0], SetOf(i.examples));
    assert SetOf(i.examples) + [] == SetOf(i.examples);
    SetReads(i.examples, []);
  }

  lemma GroupReads(g: InputGroup)
    requires ShortGroup(g)
    ensures ReadGroup(GroupBytes(g)) == Reading(Group(Encode(KindWord(g.kind)), Canonical(g.members), g.pipe), [])
  {
    EncodeLength(KindWord(g.kind));
    TextReads(Encode(KindWord(g.kind)), SetOf(g.members) + Opt(g.pipe));
    SetReads(g.members, Opt(g.pipe));
    assert Opt(g.pipe) + [] == Opt(g.pipe);
    OptionReads(g.pipe, []);
  }

  // ---- the whole ----

  function ArgumentsRead(a: Arguments): (Byte, Option<Bytes>) {
    match a
    case Closed => (0, None)
    case Open(summary) => (1, Some(summary))
    case Envelope(carrier) => (2, Some(carrier))
  }

  lemma ArgumentsReadBack(a: Arguments, x: Bytes)
    requires ShortArguments(a)
    ensures ReadTagged(ArgumentsBytes(a) + x, {0}) == Reading(ArgumentsRead(a), x)
  {
    Tagged(ArgumentsBytes(a), ArgumentsTag(a), ArgumentsRest(a), x);
    ByteReads(ArgumentsTag(a), ArgumentsRest(a) + x);
    match a
    case Closed => assert [] + x == x;
    case Open(summary) => TextReads(summary, x);
    case Envelope(carrier) => TextReads(carrier, x);
  }

  function FromRead(from: Option<OutputFrom>): (Byte, Option<Bytes>) {
    match from
    case None => (0, None)
    case Some(FromInput(name)) => (1, Some(name))
    case Some(FromOrigin) => (2, None)
  }

  lemma FromReadsBack(from: Option<OutputFrom>, x: Bytes)
    requires ShortOutputFrom(from)
    ensures ReadTagged(OutputFromBytes(from) + x, {0, 2}) == Reading(FromRead(from), x)
  {
    Tagged(OutputFromBytes(from), FromTag(from), FromRest(from), x);
    ByteReads(FromTag(from), FromRest(from) + x);
    if from.Some? && from.value.FromInput? {
      TextReads(from.value.name, x);
    } else {
      assert [] + x == x;
    }
  }

  function TailRead(values: seq<Bytes>): Option<seq<Bytes>> { if values == [] then None else Some(Canonical(values)) }

  lemma SetTailReads(tag: Byte, values: seq<Bytes>, x: Bytes)
    requires AllShort(values) && StartsAfter(x, tag)
    ensures ReadTail(tag, SetTail(tag, values) + x) == Reading(TailRead(values), x)
  {
    TailPresent(tag, SetTail(tag, values), x);
    if values != [] {
      assert SetTail(tag, values)[1..] == SetOf(values);
      SetReads(values, x);
    }
  }

  function FailuresRead(failures: Failures): Option<seq<Bytes>> {
    match failures
    case Unstated => None
    case Only(classes) => Some(Canonical(FailureItems(classes)))
  }

  lemma FailuresReadBack(failures: Failures, x: Bytes)
    requires ShortFailures(failures) && StartsAfter(x, 1)
    ensures ReadTail(1, FailureTail(failures) + x) == Reading(FailuresRead(failures), x)
  {
    TailPresent(1, FailureTail(failures), x);
    if failures.Only? {
      assert FailureTail(failures)[1..] == SetOf(FailureItems(failures.classes));
      SetReads(FailureItems(failures.classes), x);
    }
  }

  lemma MarkReads(sensitive: bool, x: Bytes)
    requires StartsAfter(x, 2)
    ensures ReadMark(2, ExistenceTail(sensitive) + x) == Reading(sensitive, x)
  {
    TailPresent(2, ExistenceTail(sensitive), x);
  }

  function FirstOf(a: ActionSpec): Body {
    First(HeadsOf(SortedInputs(a)), Canonical(a.outputs), Canonical(a.requires_))
  }

  function SecondOf(a: ActionSpec): Body {
    Second(Canonical(InputItems(a)), Canonical(a.outputs), Canonical(a.requires_), Canonical(GroupItems(a)),
           ArgumentsRead(a.arguments), FromRead(a.outputFrom), FailuresRead(a.failures), a.existenceSensitive,
           TailRead(Readers(a.inputs)), TailRead(FixedPairs(a.inputs)))
  }

  lemma FirstReads(id: Bytes, a: ActionSpec)
    requires Addressable(id, a) && !UsesV2(a)
    ensures ReadFirst(BodyV1(a)) == Reading(FirstOf(a), [])
  {
    FewInputs(id, a);
    SortedInputsShort(a);
    var x := SetOf(a.outputs) + SetOf(a.requires_);
    CountReads(|SortedInputs(a)|, HeadsBytes(SortedInputs(a)) + x);
    HeadsRead(SortedInputs(a), x);
    SetReads(a.outputs, SetOf(a.requires_));
    assert SetOf(a.requires_) + [] == SetOf(a.requires_);
    SetReads(a.requires_, []);
  }

  lemma TailsRead(id: Bytes, a: ActionSpec)
    requires Addressable(id, a)
    ensures var x3 := SetTail(4, FixedPairs(a.inputs));
            var x2 := SetTail(3, Readers(a.inputs)) + x3;
            var x1 := ExistenceTail(a.existenceSensitive) + x2;
            && ReadTail(1, Tails(a)) == Reading(FailuresRead(a.failures), x1)
            && ReadMark(2, x1) == Reading(a.existenceSensitive, x2)
            && ReadTail(3, x2) == Reading(TailRead(Readers(a.inputs)), x3)
            && ReadTail(4, x3) == Reading(TailRead(FixedPairs(a.inputs)), [])
  {
    var x3 := SetTail(4, FixedPairs(a.inputs));
    var x2 := SetTail(3, Readers(a.inputs)) + x3;
    assert x3 + [] == x3;
    SetTailReads(4, FixedPairs(a.inputs), []);
    SetTailReads(3, Readers(a.inputs), x3);
    MarkReads(a.existenceSensitive, x2);
    FailuresReadBack(a.failures, ExistenceTail(a.existenceSensitive) + x2);
  }

  lemma SecondReads(id: Bytes, a: ActionSpec)
    requires Addressable(id, a)
    ensures ReadSecond(BodyV2(a)) == Reading(SecondOf(a), [])
  {
    var x5 := OutputFromBytes(a.outputFrom) + Tails(a);
    var x4 := ArgumentsBytes(a.arguments) + x5;
    var x3 := SetOf(GroupItems(a)) + x4;
    var x2 := SetOf(a.requires_) + x3;
    SetReads(InputItems(a), SetOf(a.outputs) + x2);
    SetReads(a.outputs, x2);
    SetReads(a.requires_, x3);
    SetReads(GroupItems(a), x4);
    ArgumentsReadBack(a.arguments, x5);
    FromReadsBack(a.outputFrom, Tails(a));
    TailsRead(id, a);
  }

  function HeaderOf(id: Bytes, a: ActionSpec): Header {
    Header(Form(a), id, Encode(VerbSegment(a.verb)), a.summary)
  }

  lemma HeaderReads(id: Bytes, a: ActionSpec)
    requires Addressable(id, a)
    ensures ReadHeader(Fed(id, a)) == Reading(HeaderOf(id, a), ContractIdentity.Body(a))
  {
    var form, word, body := Form(a), Encode(VerbSegment(a.verb)), ContractIdentity.Body(a);
    FedAs(id, a, form, word, body);
    FormShort(a);
    WordShort(a.verb);
    FramedHeaderReads(form, id, word, a.summary, body);
  }

  lemma FedAs(id: Bytes, a: ActionSpec, form: Bytes, word: Bytes, body: Bytes)
    requires form == Form(a) && word == Encode(VerbSegment(a.verb)) && body == ContractIdentity.Body(a)
    ensures Fed(id, a) == Str(form) + (Str(id) + (Str(word) + (Str(a.summary) + body)))
  {
  }

  lemma FormShort(a: ActionSpec)
    ensures Short(Form(a))
  {
    FormsDiffer();
  }

  lemma WordShort(verb: Verb)
    ensures Short(Encode(VerbSegment(verb)))
  {
    EncodeLength(VerbSegment(verb));
  }

  lemma FormText(a: ActionSpec)
    ensures UsesV2(a) ==> Form(a) == Encode("ikigai:contract:v2")
    ensures !UsesV2(a) ==> Form(a) == Encode("ikigai:contract:v1")
  {
  }

  lemma FramedHeaderReads(form: Bytes, id: Bytes, verb: Bytes, summary: Bytes, body: Bytes)
    requires Short(form) && Short(id) && Short(verb) && Short(summary)
    ensures ReadHeader(Str(form) + (Str(id) + (Str(verb) + (Str(summary) + body))))
         == Reading(Header(form, id, verb, summary), body)
  {
    TextReads(form, Str(id) + (Str(verb) + (Str(summary) + body)));
    TextReads(id, Str(verb) + (Str(summary) + body));
    TextReads(verb, Str(summary) + body);
    TextReads(summary, body);
  }

  // The stream of any action reads back as the action, field by field in the order laid down, and is then
  // at its end.
  lemma ContractReadsBack(id: Bytes, a: ActionSpec)
    requires Addressable(id, a)
    ensures ReadContract(Fed(id, a)) == Reading((HeaderOf(id, a), if UsesV2(a) then SecondOf(a) else FirstOf(a)), [])
    ensures HeaderOf(id, a).form == if UsesV2(a) then Encode("ikigai:contract:v2") else Encode("ikigai:contract:v1")
  {
    HeaderReads(id, a);
    FormsDiffer();
    FormText(a);
    if UsesV2(a) {
      SecondReads(id, a);
    } else {
      FirstReads(id, a);
    }
  }
}
