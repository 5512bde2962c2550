// What the bytes fed for a contract's identity mean: two endpoint ids and actions feed the
// hasher the same bytes exactly when they are the same up to the order and repetition of
// their set-valued fields (crates/ikigai-core/src/contract.rs:577-679).

module ContractIdentity {
  import opened Wrappers
  import opened Utf8
  import opened Sorting
  import opened Framing
  import opened ContractIris
  import opened Contracts

  // ---- every length fits the machine word its prefix is written in ----

  predicate ShortNotes(values: seq<(Bytes, ValueNote)>) {
    |values| < LENGTHS && forall k | 0 <= k < |values| :: ShortNote(values[k])
  }

  predicate ShortNote(v: (Bytes, ValueNote)) {
    Short(v.0) && Short(v.1.summary) && AllShort(v.1.tags) && AllShort(v.1.needs)
  }

  predicate ShortInput(i: ArgSpec) {
    Short(i.name) && Short(i.summary) && ShortOpt(i.class_) && ShortOpt(i.default) && AllShort(i.oneOf)
    && AllShort(i.examples) && AllShort(i.needs) && ShortNotes(i.values)
  }

  predicate ShortGroup(g: InputGroup) { AllShort(g.members) && ShortOpt(g.pipe) }

  predicate ShortArguments(arguments: Arguments) {
    match arguments
    case Closed => true
    case Open(summary) => Short(summary)
    case Envelope(carrier) => Short(carrier)
  }

  predicate ShortFailures(failures: Failures) {
    failures.Only? ==> AllShort(FailureItems(failures.classes))
  }

  // Everything written behind a length prefix is as short as anything held in memory is.
  predicate Addressable(id: Bytes, a: ActionSpec) {
    && Short(id) && Short(a.summary) && AllShort(a.outputs) && AllShort(a.requires_)
    && (forall k | 0 <= k < |a.inputs| :: ShortInput(a.inputs[k])) && AllShort(InputItems(a))
    && (forall k | 0 <= k < |a.groups| :: ShortGroup(a.groups[k])) && AllShort(GroupItems(a))
    && AllShort(Readers(a.inputs)) && AllShort(FixedPairs(a.inputs))
    && ShortArguments(a.arguments) && ShortOutputFrom(a.outputFrom)
    && ShortFailures(a.failures)
  }

  lemma {:induction false} EncodeLength(s: string)
    ensures |Encode(s)| <= 4 * |s|
  {
    if s != "" {
      EncodeLength(s[1..]);
    }
  }

  // ---- one input ----

  lemma HeadRegroups(i: ArgSpec, x: seq<Byte>)
    ensures HeadBytes(i) + x
         == Str(i.name) + (Str(i.summary) + (Flag(i.required) + (SourceByte(i.source)
          + (Opt(i.class_) + (Opt(i.default) + (SetOf(i.oneOf) + x))))))
  {
  }

  // What the head of an input says, the enumeration as a set.
  ghost predicate SameHead(i: ArgSpec, j: ArgSpec) {
    i.name == j.name && i.summary == j.summary && i.required == j.required && i.source == j.source
    && i.class_ == j.class_ && i.default == j.default && Elements(i.oneOf) == Elements(j.oneOf)
  }

  lemma HeadCancels(i: ArgSpec, x: seq<Byte>, j: ArgSpec, y: seq<Byte>)
    requires HeadBytes(i) + x == HeadBytes(j) + y && ShortInput(i) && ShortInput(j)
    ensures SameHead(i, j) && x == y
  {
    HeadRegroups(i, x);
    HeadRegroups(j, y);
    var x1, y1 := SetOf(i.oneOf) + x, SetOf(j.oneOf) + y;
    var x2, y2 := Opt(i.class_) + (Opt(i.default) + x1), Opt(j.class_) + (Opt(j.default) + y1);
    var x3, y3 := Flag(i.required) + (SourceByte(i.source) + x2), Flag(j.required) + (SourceByte(j.source) + y2);
    StrCancels(i.name, Str(i.summary) + x3, j.name, Str(j.summary) + y3);
    StrCancels(i.summary, x3, j.summary, y3);
    TagCancels(Flag(i.required)[0], SourceByte(i.source) + x2, Flag(j.required)[0], SourceByte(j.source) + y2);
    TagCancels(SourceByte(i.source)[0], x2, SourceByte(j.source)[0], y2);
    OptCancels(i.class_, Opt(i.default) + x1, j.class_, Opt(j.default) + y1);
    OptCancels(i.default, x1, j.default, y1);
    SetCancels(i.oneOf, x, j.oneOf, y);
  }

  lemma HeadDetermined(i: ArgSpec, j: ArgSpec)
    requires SameHead(i, j)
    ensures HeadBytes(i) == HeadBytes(j)
  {
    SetIsOrderFree(i.oneOf, j.oneOf);
  }

  lemma NoteRegroups(value: Bytes, n: ValueNote, x: seq<Byte>)
    ensures NoteBytes(value, n) + x == Str(value) + (Str(n.summary) + (SetOf(n.tags) + (SetOf(n.needs) + x)))
  {
  }

  lemma NoteCancels(v: (Bytes, ValueNote), x: seq<Byte>, w: (Bytes, ValueNote), y: seq<Byte>)
    requires NoteBytes(v.0, v.1) + x == NoteBytes(w.0, w.1) + y && ShortNote(v) && ShortNote(w)
    ensures v.0 == w.0 && NoteOf(v.1) == NoteOf(w.1) && x == y
  {
    var m, n := v.1, w.1;
    NoteRegroups(v.0, m, x);
    NoteRegroups(w.0, n, y);
    var x2, y2 := SetOf(m.tags) + (SetOf(m.needs) + x), SetOf(n.tags) + (SetOf(n.needs) + y);
    StrCancels(v.0, Str(m.summary) + x2, w.0, Str(n.summary) + y2);
    StrCancels(m.summary, x2, n.summary, y2);
    SetCancels(m.tags, SetOf(m.needs) + x, n.tags, SetOf(n.needs) + y);
    SetCancels(m.needs, x, n.needs, y);
  }

  lemma NotesUnfold(values: seq<(Bytes, ValueNote)>, x: seq<Byte>)
    requires values != []
    ensures NotesBytes(values) + x == NoteBytes(values[0].0, values[0].1) + (NotesBytes(values[1..]) + x)
  {
  }

  lemma {:induction false} NotesCancel(a: seq<(Bytes, ValueNote)>, x: seq<Byte>, b: seq<(Bytes, ValueNote)>,
                                       y: seq<Byte>)
    requires |a| == |b| && NotesBytes(a) + x == NotesBytes(b) + y && ShortNotes(a) && ShortNotes(b)
    ensures NotesOf(a) == NotesOf(b) && x == y
  {
    if a == [] {
      assert [] + x == x && [] + y == y;
    } else {
      NotesUnfold(a, x);
      NotesUnfold(b, y);
      NoteCancels(a[0], NotesBytes(a[1..]) + x, b[0], NotesBytes(b[1..]) + y);
      NotesCancel(a[1..], x, b[1..], y);
    }
  }

  lemma {:induction false} NotesDetermined(a: seq<(Bytes, ValueNote)>, b: seq<(Bytes, ValueNote)>)
    requires NotesOf(a) == NotesOf(b)
    ensures |a| == |b| && NotesBytes(a) == NotesBytes(b)
  {
    if a != [] && b != [] {
      assert NotesOf(a)[0] == NotesOf(b)[0];
      assert NotesOf(a)[1..] == NotesOf(a[1..]) && NotesOf(b)[1..] == NotesOf(b[1..]);
      NotesDetermined(a[1..], b[1..]);
      SetIsOrderFree(a[0].1.tags, b[0].1.tags);
      SetIsOrderFree(a[0].1.needs, b[0].1.needs);
    } else {
      assert |NotesOf(a)| == |NotesOf(b)|;
    }
  }

  lemma SeparatorsDistinct(a: Option<ListSeparator>, b: Option<ListSeparator>)
    requires ListWord(a) == ListWord(b)
    ensures a == b
  {
    if a.Some? && b.Some? {
      EncodeInjective(SeparatorWord(a.value), SeparatorWord(b.value));
      assert SeparatorWord(a.value)[0] == SeparatorWord(b.value)[0]
             && |SeparatorWord(a.value)| == |SeparatorWord(b.value)|;
    }
  }

  lemma ListWordShort(a: Option<ListSeparator>)
    ensures ShortOpt(ListWord(a))
  {
    if a.Some? {
      EncodeLength(SeparatorWord(a.value));
    }
  }

  // The whole encoding of an input in the second form says what the input is, up to the order
  // of its sets, apart from the two fields the tails carry.
  lemma InputCancels(i: ArgSpec, j: ArgSpec)
    requires InputBytes(i) == InputBytes(j) && ShortInput(i) && ShortInput(j)
    ensures BaseOf(i) == BaseOf(j)
  {
    var x1, y1 := Flag(i.EmptyEnumeration()) + SetOf(i.examples), Flag(j.EmptyEnumeration()) + SetOf(j.examples);
    var x2, y2 := U64(|i.values|) + (NotesBytes(i.values) + x1), U64(|j.values|) + (NotesBytes(j.values) + y1);
    var x3, y3 := Opt(ListWord(i.list)) + x2, Opt(ListWord(j.list)) + y2;
    HeadCancels(i, SetOf(i.needs) + x3, j, SetOf(j.needs) + y3);
    SetCancels(i.needs, x3, j.needs, y3);
    ListWordShort(i.list);
    ListWordShort(j.list);
    OptCancels(ListWord(i.list), x2, ListWord(j.list), y2);
    SeparatorsDistinct(i.list, j.list);
    SameFront(U64(|i.values|), NotesBytes(i.values) + x1, U64(|j.values|), NotesBytes(j.values) + y1);
    U64Injective(|i.values|, |j.values|);
    NotesCancel(i.values, x1, j.values, y1);
    TagCancels(Flag(i.EmptyEnumeration())[0], SetOf(i.examples), Flag(j.EmptyEnumeration())[0], SetOf(j.examples));
    assert SetOf(i.examples) + [] == SetOf(i.examples) && SetOf(j.examples) + [] == SetOf(j.examples);
    SetCancels(i.examples, [], j.examples, []);
  }

  lemma InputDetermined(i: ArgSpec, j: ArgSpec)
    requires BaseOf(i) == BaseOf(j)
    ensures InputBytes(i) == InputBytes(j)
  {
    HeadDetermined(i, j);
    SetIsOrderFree(i.needs, j.needs);
    NotesDetermined(i.values, j.values);
    SetIsOrderFree(i.examples, j.examples);
  }

  // ---- the inputs in the first form ----

  predicate Plain(i: ArgSpec) { !InputUsesV2(i) }

  lemma SortedElements(values: seq<Bytes>)
    ensures Elements(SortDedup(values, TextLess)) == Elements(values)
  {
    TextsOrder(Elements(values));
    SortDedupSorts(values, TextLess, Elements(values));
  }

  lemma ElementsEmpty<T(!new)>(s: seq<T>)
    ensures Elements(s) == {} <==> s == []
  {
    if s != [] {
      assert s[0] in Elements(s);
    }
  }

  // In the first form two inputs are the same exactly when their canonical forms are equal.
  lemma CanonicalDetermined(i: ArgSpec, j: ArgSpec)
    requires Plain(i) && Plain(j)
    ensures CanonicalInput(i) == CanonicalInput(j) <==> SameHead(i, j)
    ensures SameHead(i, j) <==> InputOf(i) == InputOf(j)
  {
    TextsOrder(Elements(i.oneOf) + Elements(j.oneOf));
    SortDedupIsSet(i.oneOf, j.oneOf, TextLess);
    ElementsEmpty(i.oneOf);
    ElementsEmpty(j.oneOf);
  }

  // A canonical form that the first form carries whole.
  predicate Canonical(i: ArgSpec) { Plain(i) && (i.enumerated <==> i.oneOf != []) }

  lemma CanonicalIsCanonical(i: ArgSpec)
    requires Plain(i)
    ensures Canonical(CanonicalInput(i)) && SameHead(i, CanonicalInput(i))
  {
    SortedElements(i.oneOf);
    ElementsEmpty(i.oneOf);
    ElementsEmpty(SortDedup(i.oneOf, TextLess));
  }

  lemma OptKeyInjective(a: Option<Bytes>, b: Option<Bytes>)
    requires OptKey(a) == OptKey(b)
    ensures a == b
  {
    if a.Some? && b.Some? {
      assert OptKey(a)[1..] == a.value && OptKey(b)[1..] == b.value;
    }
  }

  lemma KeyInjective(i: ArgSpec, j: ArgSpec)
    requires Canonical(i) && Canonical(j) && KeyOf(i) == KeyOf(j)
    ensures i == j
  {
    var k, l := KeyOf(i), KeyOf(j);
    assert k[0] == l[0] && k[1] == l[1] && k[2] == l[2] && k[3] == l[3] && k[4] == l[4] && k[5] == l[5];
    assert k[2][0] == l[2][0] && k[3][0] == l[3][0];
    assert k[6..] == i.oneOf && l[6..] == j.oneOf;
    OptKeyInjective(i.class_, j.class_);
    OptKeyInjective(i.default, j.default);
  }

  lemma KeysOrder(all: set<ArgSpec>)
    requires forall i | i in all :: Canonical(i)
    ensures Orders(KeyLess, all)
  {
    forall x, y | x in all && y in all && x != y ensures KeyLess(x, y) != KeyLess(y, x) {
      if KeyOf(x) == KeyOf(y) {
        KeyInjective(x, y);
      }
      ListTotal(KeyOf(x), KeyOf(y));
    }
    forall x, y, z | x in all && y in all && z in all && KeyLess(x, y) && KeyLess(y, z) && x != y && y != z
      ensures x != z && KeyLess(x, z)
    {
      ListTransitive(KeyOf(x), KeyOf(y), KeyOf(z));
      ListIrreflexive(KeyOf(x));
    }
  }

  predicate AllPlain(inputs: seq<ArgSpec>) { forall k | 0 <= k < |inputs| :: Plain(inputs[k]) }

  lemma CanonicalOf(inputs: seq<ArgSpec>, c: ArgSpec) returns (i: ArgSpec)
    requires c in CanonicalInputs(inputs)
    ensures i in inputs && c == CanonicalInput(i)
  {
    var k :| 0 <= k < |inputs| && CanonicalInputs(inputs)[k] == c;
    i := inputs[k];
  }

  lemma CanonicalIn(inputs: seq<ArgSpec>, i: ArgSpec)
    requires i in inputs
    ensures CanonicalInput(i) in CanonicalInputs(inputs)
  {
    var k :| 0 <= k < |inputs| && inputs[k] == i;
    assert CanonicalInputs(inputs)[k] == CanonicalInput(i);
  }

  lemma CanonicalsOrder(inputs: seq<ArgSpec>, others: seq<ArgSpec>)
    requires AllPlain(inputs) && AllPlain(others)
    ensures Orders(KeyLess, Elements(CanonicalInputs(inputs)) + Elements(CanonicalInputs(others)))
  {
    var all := Elements(CanonicalInputs(inputs)) + Elements(CanonicalInputs(others));
    forall c | c in all ensures Canonical(c) {
      var i := CanonicalOf(if c in CanonicalInputs(inputs) then inputs else others, c);
      CanonicalIsCanonical(i);
    }
    KeysOrder(all);
  }

  // The canonical list is the same for any two actions with the same inputs.
  lemma SortedInputsDetermined(a: ActionSpec, b: ActionSpec)
    requires !UsesV2(a) && !UsesV2(b) && Inputs(a) == Inputs(b)
    ensures SortedInputs(a) == SortedInputs(b)
  {
    CanonicalsMatch(a, b);
    CanonicalsMatch(b, a);
    CanonicalsOrder(a.inputs, b.inputs);
    SortDedupIsSet(CanonicalInputs(a.inputs), CanonicalInputs(b.inputs), KeyLess);
  }

  lemma CanonicalsMatch(a: ActionSpec, b: ActionSpec)
    requires !UsesV2(a) && !UsesV2(b) && Inputs(a) == Inputs(b)
    ensures Elements(CanonicalInputs(a.inputs)) <= Elements(CanonicalInputs(b.inputs))
  {
    forall c | c in CanonicalInputs(a.inputs) ensures c in CanonicalInputs(b.inputs) {
      var i := CanonicalOf(a.inputs, c);
      assert InputOf(i) in Inputs(a);
      var j :| j in b.inputs && InputOf(j) == InputOf(i);
      CanonicalDetermined(i, j);
      CanonicalIn(b.inputs, j);
    }
  }

  lemma HeadsUnfold(inputs: seq<ArgSpec>, x: seq<Byte>)
    requires inputs != []
    ensures HeadsBytes(inputs) + x == HeadBytes(inputs[0]) + (HeadsBytes(inputs[1..]) + x)
  {
  }

  lemma {:induction false} HeadsCancel(s: seq<ArgSpec>, x: seq<Byte>, t: seq<ArgSpec>, y: seq<Byte>)
    requires |s| == |t| && HeadsBytes(s) + x == HeadsBytes(t) + y
    requires forall k | 0 <= k < |s| :: ShortInput(s[k]) && ShortInput(t[k])
    ensures x == y && forall k | 0 <= k < |s| :: SameHead(s[k], t[k])
  {
    if s == [] {
      assert [] + x == x && [] + y == y;
    } else {
      HeadsUnfold(s, x);
      HeadsUnfold(t, y);
      HeadCancels(s[0], HeadsBytes(s[1..]) + x, t[0], HeadsBytes(t[1..]) + y);
      HeadsCancel(s[1..], x, t[1..], y);
      forall k | 0 <= k < |s| ensures SameHead(s[k], t[k]) {
        if k > 0 {
          assert s[k] == s[1..][k - 1] && t[k] == t[1..][k - 1];
        }
      }
    }
  }

  lemma SortedInputsShort(a: ActionSpec)
    requires !UsesV2(a) && |a.inputs| < LENGTHS && forall k | 0 <= k < |a.inputs| :: ShortInput(a.inputs[k])
    ensures |SortedInputs(a)| < LENGTHS
    ensures forall k | 0 <= k < |SortedInputs(a)| :: ShortInput(SortedInputs(a)[k])
    ensures forall c :: c in SortedInputs(a) <==> c in CanonicalInputs(a.inputs)
  {
    var cs := CanonicalInputs(a.inputs);
    CanonicalsOrder(a.inputs, a.inputs);
    SortDedupSorts(cs, KeyLess, Elements(cs));
    SortDedupShorter(cs, KeyLess);
    forall k | 0 <= k < |SortedInputs(a)| ensures ShortInput(SortedInputs(a)[k]) {
      assert SortedInputs(a)[k] in cs;
      var i := CanonicalOf(a.inputs, SortedInputs(a)[k]);
      SortedShort(i.oneOf);
    }
  }

  // Lists of canonical inputs alike head by head come from the same inputs.
  lemma HeadsMatch(a: ActionSpec, b: ActionSpec)
    requires !UsesV2(a) && !UsesV2(b) && |SortedInputs(a)| == |SortedInputs(b)|
    requires forall c :: c in SortedInputs(a) <==> c in CanonicalInputs(a.inputs)
    requires forall c :: c in SortedInputs(b) <==> c in CanonicalInputs(b.inputs)
    requires forall k | 0 <= k < |SortedInputs(a)| :: SameHead(SortedInputs(a)[k], SortedInputs(b)[k])
    ensures Inputs(a) <= Inputs(b)
  {
    forall c | c in Inputs(a) ensures c in Inputs(b) {
      var i :| i in a.inputs && c == InputOf(i);
      CanonicalIn(a.inputs, i);
      var k :| 0 <= k < |SortedInputs(a)| && SortedInputs(a)[k] == CanonicalInput(i);
      assert SortedInputs(b)[k] in SortedInputs(b);
      var j := CanonicalOf(b.inputs, SortedInputs(b)[k]);
      CanonicalIsCanonical(i);
      CanonicalIsCanonical(j);
      CanonicalDetermined(i, j);
      assert InputOf(j) in Inputs(b);
    }
  }

  lemma CountedHeadsCancel(s: seq<ArgSpec>, x: seq<Byte>, t: seq<ArgSpec>, y: seq<Byte>)
    requires |s| < LENGTHS && |t| < LENGTHS && U64(|s|) + (HeadsBytes(s) + x) == U64(|t|) + (HeadsBytes(t) + y)
    requires forall k | 0 <= k < |s| :: ShortInput(s[k])
    requires forall k | 0 <= k < |t| :: ShortInput(t[k])
    ensures |s| == |t| && x == y && forall k | 0 <= k < |s| :: SameHead(s[k], t[k])
  {
    SameFront(U64(|s|), HeadsBytes(s) + x, U64(|t|), HeadsBytes(t) + y);
    U64Injective(|s|, |t|);
    HeadsCancel(s, x, t, y);
  }

  lemma TwoSetsCancel(v: seq<Bytes>, v': seq<Bytes>, w: seq<Bytes>, w': seq<Bytes>)
    requires SetOf(v) + SetOf(v') == SetOf(w) + SetOf(w') && AllShort(v) && AllShort(v') && AllShort(w) && AllShort(w')
    ensures Elements(v) == Elements(w) && Elements(v') == Elements(w')
  {
    SetCancels(v, SetOf(v'), w, SetOf(w'));
    assert SetOf(v') + [] == SetOf(v') && SetOf(w') + [] == SetOf(w');
    SetCancels(v', [], w', []);
  }

  lemma BodyV1Cancels(id: Bytes, a: ActionSpec, other: Bytes, b: ActionSpec)
    requires !UsesV2(a) && !UsesV2(b) && Addressable(id, a) && Addressable(other, b) && BodyV1(a) == BodyV1(b)
    ensures Inputs(a) == Inputs(b) && Elements(a.outputs) == Elements(b.outputs)
    ensures Elements(a.requires_) == Elements(b.requires_)
  {
    FewInputs(id, a);
    FewInputs(other, b);
    SortedInputsShort(a);
    SortedInputsShort(b);
    var x, y := SetOf(a.outputs) + SetOf(a.requires_), SetOf(b.outputs) + SetOf(b.requires_);
    CountedHeadsCancel(SortedInputs(a), x, SortedInputs(b), y);
    HeadsMatch(a, b);
    HeadsMatch(b, a);
    TwoSetsCancel(a.outputs, a.requires_, b.outputs, b.requires_);
  }

  lemma FewInputs(id: Bytes, a: ActionSpec)
    requires Addressable(id, a)
    ensures |a.inputs| < LENGTHS
  {
    assert |a.inputs| == |InputItems(a)|;
  }

  // ---- the second form: items ----

  // Items that are equal exactly when what they stand for is: the lists hold the same items
  // exactly when they stand for the same things.
  lemma ItemsStand<E(!new), C(!new)>(es: seq<E>, cs: seq<C>, fs: seq<E>, ds: seq<C>)
    requires |es| == |cs| && |fs| == |ds|
    requires forall k, l | 0 <= k < |es| && 0 <= l < |fs| :: es[k] == fs[l] <==> cs[k] == ds[l]
    ensures Elements(es) == Elements(fs) <==> Elements(cs) == Elements(ds)
  {
    ItemsWithin(es, cs, fs, ds);
    ItemsWithin(fs, ds, es, cs);
    ItemsWithin(cs, es, ds, fs);
    ItemsWithin(ds, fs, cs, es);
  }

  lemma ItemsWithin<E(!new), C(!new)>(es: seq<E>, cs: seq<C>, fs: seq<E>, ds: seq<C>)
    requires |es| == |cs| && |fs| == |ds|
    requires forall k, l | 0 <= k < |es| && 0 <= l < |fs| :: es[k] == fs[l] ==> cs[k] == ds[l]
    ensures Elements(es) <= Elements(fs) ==> Elements(cs) <= Elements(ds)
  {
    if Elements(es) <= Elements(fs) {
      forall c | c in cs ensures c in ds {
        var k :| 0 <= k < |cs| && cs[k] == c;
        assert es[k] in Elements(es);
        assert es[k] in fs;
        var l :| 0 <= l < |fs| && fs[l] == es[k];
        assert cs[k] == ds[l];
      }
    }
  }

  ghost function Bases(a: ActionSpec): seq<Base> {
    seq(|a.inputs|, k requires 0 <= k < |a.inputs| => BaseOf(a.inputs[k]))
  }

  lemma BasesStand(id: Bytes, a: ActionSpec, other: Bytes, b: ActionSpec)
    requires Addressable(id, a) && Addressable(other, b)
    ensures Elements(InputItems(a)) == Elements(InputItems(b)) <==> Elements(Bases(a)) == Elements(Bases(b))
  {
    forall k, l | 0 <= k < |InputItems(a)| && 0 <= l < |InputItems(b)|
      ensures InputItems(a)[k] == InputItems(b)[l] <==> Bases(a)[k] == Bases(b)[l]
    {
      if InputItems(a)[k] == InputItems(b)[l] {
        InputCancels(a.inputs[k], b.inputs[l]);
      }
      if Bases(a)[k] == Bases(b)[l] {
        InputDetermined(a.inputs[k], b.inputs[l]);
      }
    }
    ItemsStand(InputItems(a), Bases(a), InputItems(b), Bases(b));
  }

  lemma KindsDistinct(a: GroupKind, b: GroupKind)
    requires Encode(KindWord(a)) == Encode(KindWord(b))
    ensures a == b
  {
    EncodeInjective(KindWord(a), KindWord(b));
    assert |KindWord(a)| == |KindWord(b)| && KindWord(a)[3] == KindWord(b)[3];
  }

  lemma GroupsDistinct(g: InputGroup, h: InputGroup)
    requires ShortGroup(g) && ShortGroup(h)
    ensures GroupBytes(g) == GroupBytes(h) <==> GroupOf(g) == GroupOf(h)
  {
    if GroupBytes(g) == GroupBytes(h) {
      EncodeLength(KindWord(g.kind));
      EncodeLength(KindWord(h.kind));
      StrCancels(Encode(KindWord(g.kind)), SetOf(g.members) + Opt(g.pipe),
                 Encode(KindWord(h.kind)), SetOf(h.members) + Opt(h.pipe));
      KindsDistinct(g.kind, h.kind);
      SetCancels(g.members, Opt(g.pipe), h.members, Opt(h.pipe));
      assert Opt(g.pipe) + [] == Opt(g.pipe) && Opt(h.pipe) + [] == Opt(h.pipe);
      OptCancels(g.pipe, [], h.pipe, []);
    }
    if GroupOf(g) == GroupOf(h) {
      SetIsOrderFree(g.members, h.members);
    }
  }

  ghost function GroupsOf(groups: seq<InputGroup>): seq<CanonGroup> {
    seq(|groups|, k requires 0 <= k < |groups| => GroupOf(groups[k]))
  }

  lemma GroupsElements(groups: seq<InputGroup>)
    ensures Elements(GroupsOf(groups)) == set g | g in groups :: GroupOf(g)
  {
    forall k | 0 <= k < |groups| ensures GroupsOf(groups)[k] in (set g | g in groups :: GroupOf(g)) {
      assert groups[k] in groups;
    }
    forall g | g in groups ensures GroupOf(g) in GroupsOf(groups) {
      var k :| 0 <= k < |groups| && groups[k] == g;
      assert GroupsOf(groups)[k] == GroupOf(g);
    }
  }

  lemma GroupsStand(id: Bytes, a: ActionSpec, other: Bytes, b: ActionSpec)
    requires Addressable(id, a) && Addressable(other, b)
    ensures Elements(GroupItems(a)) == Elements(GroupItems(b)) <==> Canon(a).groups == Canon(b).groups
  {
    forall k, l | 0 <= k < |GroupItems(a)| && 0 <= l < |GroupItems(b)|
      ensures GroupItems(a)[k] == GroupItems(b)[l] <==> GroupsOf(a.groups)[k] == GroupsOf(b.groups)[l]
    {
      GroupsDistinct(a.groups[k], b.groups[l]);
    }
    ItemsStand(GroupItems(a), GroupsOf(a.groups), GroupItems(b), GroupsOf(b.groups));
    GroupsElements(a.groups);
    GroupsElements(b.groups);
  }

  lemma ClassesDistinct(a: FailureClass, b: FailureClass)
    requires Str(Encode(FailureWord(a))) == Str(Encode(FailureWord(b)))
    ensures a == b
  {
    var x, y := Encode(FailureWord(a)), Encode(FailureWord(b));
    assert Str(x)[8..] == x && Str(y)[8..] == y;
    EncodeInjective(FailureWord(a), FailureWord(b));
    assert |FailureWord(a)| == |FailureWord(b)| && FailureWord(a)[0] == FailureWord(b)[0]
           && FailureWord(a)[2] == FailureWord(b)[2];
  }

  lemma ClassesStand(a: seq<FailureClass>, b: seq<FailureClass>)
    ensures Elements(FailureItems(a)) == Elements(FailureItems(b)) <==> Elements(a) == Elements(b)
  {
    forall k, l | 0 <= k < |a| && 0 <= l < |b|
      ensures FailureItems(a)[k] == FailureItems(b)[l] <==> a[k] == b[l]
    {
      if FailureItems(a)[k] == FailureItems(b)[l] {
        ClassesDistinct(a[k], b[l]);
      }
    }
    ItemsStand(FailureItems(a), a, FailureItems(b), b);
  }

  // The tag byte and what follows it.
  lemma Tagged(bytes: seq<Byte>, tag: Byte, rest: seq<Byte>, x: seq<Byte>)
    requires bytes == [tag] + rest
    ensures bytes + x == [tag] + (rest + x)
  {
  }

  function ArgumentsTag(a: Arguments): Byte { if a.Closed? then 0 else if a.Open? then 1 else 2 }

  function ArgumentsRest(a: Arguments): seq<Byte> {
    match a
    case Closed => []
    case Open(summary) => Str(summary)
    case Envelope(carrier) => Str(carrier)
  }

  lemma ArgumentsCancel(a: Arguments, x: seq<Byte>, b: Arguments, y: seq<Byte>)
    requires ArgumentsBytes(a) + x == ArgumentsBytes(b) + y && ShortArguments(a) && ShortArguments(b)
    ensures a == b && x == y
  {
    Tagged(ArgumentsBytes(a), ArgumentsTag(a), ArgumentsRest(a), x);
    Tagged(ArgumentsBytes(b), ArgumentsTag(b), ArgumentsRest(b), y);
    TagCancels(ArgumentsTag(a), ArgumentsRest(a) + x, ArgumentsTag(b), ArgumentsRest(b) + y);
    match a
    case Closed => assert [] + x == x && [] + y == y;
    case Open(summary) => StrCancels(summary, x, b.summary, y);
    case Envelope(carrier) => StrCancels(carrier, x, b.carrier, y);
  }

  predicate ShortOutputFrom(from: Option<OutputFrom>) {
    from.Some? && from.value.FromInput? ==> Short(from.value.name)
  }

  function FromTag(from: Option<OutputFrom>): Byte {
    if from.None? then 0 else if from.value.FromInput? then 1 else 2
  }

  function FromRest(from: Option<OutputFrom>): seq<Byte> {
    if from.Some? && from.value.FromInput? then Str(from.value.name) else []
  }

  lemma OutputFromCancels(a: Option<OutputFrom>, x: seq<Byte>, b: Option<OutputFrom>, y: seq<Byte>)
    requires OutputFromBytes(a) + x == OutputFromBytes(b) + y && ShortOutputFrom(a) && ShortOutputFrom(b)
    ensures a == b && x == y
  {
    Tagged(OutputFromBytes(a), FromTag(a), FromRest(a), x);
    Tagged(OutputFromBytes(b), FromTag(b), FromRest(b), y);
    TagCancels(FromTag(a), FromRest(a) + x, FromTag(b), FromRest(b) + y);
    if a.Some? && a.value.FromInput? {
      StrCancels(a.value.name, x, b.value.name, y);
    } else {
      assert [] + x == x && [] + y == y;
    }
  }

  // ---- the second form: tails ----

  // What is left of a stream, or its first byte, tells the tails apart.
  predicate StartsAfter(x: seq<Byte>, tag: Byte) { x == [] || x[0] > tag }

  lemma TailPresent(tag: Byte, tail: seq<Byte>, x: seq<Byte>)
    requires (tail == [] || tail[0] == tag) && StartsAfter(x, tag)
    ensures StartsAfter(tail + x, tag) <==> tail == []
    ensures tail == [] ==> tail + x == x
    ensures tail != [] ==> tail + x == [tag] + (tail[1..] + x)
  {
  }

  lemma SetTailCancels(tag: Byte, v: seq<Bytes>, x: seq<Byte>, w: seq<Bytes>, y: seq<Byte>)
    requires SetTail(tag, v) + x == SetTail(tag, w) + y && StartsAfter(x, tag) && StartsAfter(y, tag)
    requires AllShort(v) && AllShort(w)
    ensures Elements(v) == Elements(w) && x == y
  {
    TailPresent(tag, SetTail(tag, v), x);
    TailPresent(tag, SetTail(tag, w), y);
    if v != [] {
      assert SetTail(tag, v)[1..] == SetOf(v) && SetTail(tag, w)[1..] == SetOf(w);
      TagCancels(tag, SetOf(v) + x, tag, SetOf(w) + y);
      SetCancels(v, x, w, y);
    }
  }

  lemma SetTailDetermined(tag: Byte, v: seq<Bytes>, w: seq<Bytes>)
    requires Elements(v) == Elements(w)
    ensures SetTail(tag, v) == SetTail(tag, w)
  {
    ElementsEmpty(v);
    ElementsEmpty(w);
    SetIsOrderFree(v, w);
  }

  ghost function FailuresOf(failures: Failures): Option<set<FailureClass>> {
    match failures
    case Unstated => None
    case Only(classes) => Some(Elements(classes))
  }

  lemma FailureTailCancels(f: Failures, x: seq<Byte>, g: Failures, y: seq<Byte>)
    requires FailureTail(f) + x == FailureTail(g) + y && StartsAfter(x, 1) && StartsAfter(y, 1)
    requires ShortFailures(f) && ShortFailures(g)
    ensures FailuresOf(f) == FailuresOf(g) && x == y
  {
    TailPresent(1, FailureTail(f), x);
    TailPresent(1, FailureTail(g), y);
    if f.Only? {
      var v, w := FailureItems(f.classes), FailureItems(g.classes);
      assert FailureTail(f)[1..] == SetOf(v) && FailureTail(g)[1..] == SetOf(w);
      TagCancels(1, SetOf(v) + x, 1, SetOf(w) + y);
      SetCancels(v, x, w, y);
      ClassesStand(f.classes, g.classes);
    }
  }

  lemma FailureTailDetermined(f: Failures, g: Failures)
    requires FailuresOf(f) == FailuresOf(g)
    ensures FailureTail(f) == FailureTail(g)
  {
    if f.Only? && g.Only? {
      ClassesStand(f.classes, g.classes);
      SetIsOrderFree(FailureItems(f.classes), FailureItems(g.classes));
    }
  }

  lemma ExistenceTailCancels(s: bool, x: seq<Byte>, t: bool, y: seq<Byte>)
    requires ExistenceTail(s) + x == ExistenceTail(t) + y && StartsAfter(x, 2) && StartsAfter(y, 2)
    ensures s == t && x == y
  {
    TailPresent(2, ExistenceTail(s), x);
    TailPresent(2, ExistenceTail(t), y);
    if s {
      TagCancels(2, x, 2, y);
    }
  }

  lemma TailsCancel(id: Bytes, a: ActionSpec, other: Bytes, b: ActionSpec)
    requires Addressable(id, a) && Addressable(other, b) && Tails(a) == Tails(b)
    ensures Canon(a).failures == Canon(b).failures && a.existenceSensitive == b.existenceSensitive
    ensures Elements(Readers(a.inputs)) == Elements(Readers(b.inputs))
    ensures Elements(FixedPairs(a.inputs)) == Elements(FixedPairs(b.inputs))
  {
    var x3, y3 := SetTail(4, FixedPairs(a.inputs)), SetTail(4, FixedPairs(b.inputs));
    var x2, y2 := SetTail(3, Readers(a.inputs)) + x3, SetTail(3, Readers(b.inputs)) + y3;
    TwoTailsCancel(a.failures, a.existenceSensitive, x2, b.failures, b.existenceSensitive, y2);
    SetTailCancels(3, Readers(a.inputs), x3, Readers(b.inputs), y3);
    assert x3 + [] == x3 && y3 + [] == y3;
    SetTailCancels(4, FixedPairs(a.inputs), [], FixedPairs(b.inputs), []);
  }

  lemma TwoTailsCancel(f: Failures, s: bool, x: seq<Byte>, g: Failures, t: bool, y: seq<Byte>)
    requires FailureTail(f) + (ExistenceTail(s) + x) == FailureTail(g) + (ExistenceTail(t) + y)
    requires StartsAfter(x, 2) && StartsAfter(y, 2) && ShortFailures(f) && ShortFailures(g)
    ensures FailuresOf(f) == FailuresOf(g) && s == t && x == y
  {
    FailureTailCancels(f, ExistenceTail(s) + x, g, ExistenceTail(t) + y);
    ExistenceTailCancels(s, x, t, y);
  }

  // ---- the second form: which input is read as a body, which is fixed ----

  lemma {:induction false} ReadersAre(inputs: seq<ArgSpec>)
    ensures forall n :: n in Readers(inputs) <==> exists i | i in inputs :: i.readsBody && i.name == n
  {
    if inputs != [] {
      ReadersAre(inputs[1..]);
      assert inputs == [inputs[0]] + inputs[1..];
      forall n ensures n in Readers(inputs) <==> exists i | i in inputs :: i.readsBody && i.name == n {
        if n in Readers(inputs[1..]) {
          var i :| i in inputs[1..] && i.readsBody && i.name == n;
          assert i in inputs;
        }
        if inputs[0].readsBody && inputs[0].name == n {
          assert inputs[0] in inputs;
        }
      }
    }
  }

  function Pair(name: Bytes, value: Bytes): Bytes { name + [0] + value }

  lemma {:induction false} FixedPairsAre(inputs: seq<ArgSpec>)
    ensures forall p :: p in FixedPairs(inputs)
                        <==> exists i | i in inputs :: i.fixed.Some? && p == Pair(i.name, i.fixed.value)
  {
    if inputs != [] {
      FixedPairsAre(inputs[1..]);
      assert inputs == [inputs[0]] + inputs[1..];
      forall p
        ensures p in FixedPairs(inputs) <==> exists i | i in inputs :: i.fixed.Some? && p == Pair(i.name, i.fixed.value)
      {
        if p in FixedPairs(inputs[1..]) {
          var i :| i in inputs[1..] && i.fixed.Some? && p == Pair(i.name, i.fixed.value);
          assert i in inputs;
        }
        if inputs[0].fixed.Some? && p == Pair(inputs[0].name, inputs[0].fixed.value) {
          assert inputs[0] in inputs;
        }
      }
    }
  }

  lemma NulAfterName(n: Bytes, v: Bytes, k: nat)
    requires 0 !in n && k < |Pair(n, v)| && Pair(n, v)[k] == 0
    ensures |n| <= k
  {
  }

  // A NUL-free name ends at the first NUL.
  lemma PairsDistinct(n: Bytes, v: Bytes, m: Bytes, w: Bytes)
    requires 0 !in n && 0 !in m && Pair(n, v) == Pair(m, w)
    ensures n == m && v == w
  {
    assert Pair(n, v)[|n|] == 0 && Pair(m, w)[|m|] == 0;
    NulAfterName(n, v, |m|);
    NulAfterName(m, w, |n|);
    assert Pair(n, v)[..|n|] == n && Pair(m, w)[..|m|] == m;
    assert Pair(n, v)[|n| + 1..] == v && Pair(m, w)[|m| + 1..] == w;
  }

  // ---- the theorem ----

  // No two different inputs share a name.
  ghost predicate NamesDecide(inputs: seq<ArgSpec>) {
    forall i, j | i in inputs && j in inputs && i.name == j.name :: InputOf(i) == InputOf(j)
  }

  // Distinct input names, none holding a NUL.
  ghost predicate WellNamed(a: ActionSpec) {
    NamesDecide(a.inputs) && forall i | i in a.inputs :: 0 !in i.name
  }

  lemma BaseIn(a: ActionSpec, i: ArgSpec)
    requires i in a.inputs
    ensures BaseOf(i) in Elements(Bases(a)) && InputOf(i) in Inputs(a)
  {
    var k :| 0 <= k < |a.inputs| && a.inputs[k] == i;
    assert Bases(a)[k] == BaseOf(i);
  }

  lemma BaseFrom(a: ActionSpec, base: Base) returns (i: ArgSpec)
    requires base in Elements(Bases(a))
    ensures i in a.inputs && BaseOf(i) == base
  {
    var k :| 0 <= k < |a.inputs| && Bases(a)[k] == base;
    i := a.inputs[k];
  }

  // An input is read as a body exactly when its name is listed, and fixed exactly to the value
  // paired with its name.
  lemma TailsDecide(a: ActionSpec, i: ArgSpec)
    requires WellNamed(a) && i in a.inputs
    ensures i.readsBody <==> i.name in Readers(a.inputs)
    ensures forall v :: Pair(i.name, v) in FixedPairs(a.inputs) <==> i.fixed == Some(v)
  {
    ReadersAre(a.inputs);
    FixedPairsAre(a.inputs);
    forall v | Pair(i.name, v) in FixedPairs(a.inputs) ensures i.fixed == Some(v) {
      var j :| j in a.inputs && j.fixed.Some? && Pair(i.name, v) == Pair(j.name, j.fixed.value);
      PairsDistinct(i.name, v, j.name, j.fixed.value);
    }
  }

  lemma InputsWithin(a: ActionSpec, b: ActionSpec)
    requires WellNamed(a) && WellNamed(b) && Elements(Bases(a)) == Elements(Bases(b))
    requires Elements(Readers(a.inputs)) == Elements(Readers(b.inputs))
    requires Elements(FixedPairs(a.inputs)) == Elements(FixedPairs(b.inputs))
    ensures Inputs(a) <= Inputs(b)
  {
    forall c | c in Inputs(a) ensures c in Inputs(b) {
      var i :| i in a.inputs && c == InputOf(i);
      BaseIn(a, i);
      var j := BaseFrom(b, BaseOf(i));
      TailsDecide(a, i);
      TailsDecide(b, j);
      assert i.name in Elements(Readers(a.inputs)) <==> j.name in Elements(Readers(b.inputs));
      if i.fixed.Some? {
        assert Pair(i.name, i.fixed.value) in Elements(FixedPairs(b.inputs));
      }
      if j.fixed.Some? {
        assert Pair(j.name, j.fixed.value) in Elements(FixedPairs(a.inputs));
      }
      BaseIn(b, j);
    }
  }

  // ---- what the bytes tell, whatever the names ----

  // Which names are read as a body and which name and value pairs are fixed, but not of which input.
  datatype Told = Told(
    verb: Verb,
    summary: Bytes,
    bases: set<Base>,
    readers: set<Bytes>,
    fixedPairs: set<Bytes>,
    outputs: set<Bytes>,
    requires_: set<Bytes>,
    groups: set<CanonGroup>,
    arguments: Arguments,
    outputFrom: Option<OutputFrom>,
    failures: Option<set<FailureClass>>,
    existenceSensitive: bool)

  ghost function ToldBy(a: ActionSpec): Told {
    Told(a.verb, a.summary, Elements(Bases(a)), Elements(Readers(a.inputs)), Elements(FixedPairs(a.inputs)),
         Elements(a.outputs), Elements(a.requires_), Canon(a).groups, a.arguments, a.outputFrom, Canon(a).failures,
         a.existenceSensitive)
  }

  lemma BodyV2Cancels(id: Bytes, a: ActionSpec, other: Bytes, b: ActionSpec)
    requires Addressable(id, a) && Addressable(other, b) && BodyV2(a) == BodyV2(b)
    requires a.verb == b.verb && a.summary == b.summary
    ensures ToldBy(a) == ToldBy(b)
  {
    var x5, y5 := OutputFromBytes(a.outputFrom) + Tails(a), OutputFromBytes(b.outputFrom) + Tails(b);
    var x4, y4 := ArgumentsBytes(a.arguments) + x5, ArgumentsBytes(b.arguments) + y5;
    var x3, y3 := SetOf(GroupItems(a)) + x4, SetOf(GroupItems(b)) + y4;
    var x2, y2 := SetOf(a.requires_) + x3, SetOf(b.requires_) + y3;
    SetCancels(InputItems(a), SetOf(a.outputs) + x2, InputItems(b), SetOf(b.outputs) + y2);
    SetCancels(a.outputs, x2, b.outputs, y2);
    SetCancels(a.requires_, x3, b.requires_, y3);
    SetCancels(GroupItems(a), x4, GroupItems(b), y4);
    ArgumentsCancel(a.arguments, x5, b.arguments, y5);
    OutputFromCancels(a.outputFrom, Tails(a), b.outputFrom, Tails(b));
    TailsCancel(id, a, other, b);
    GroupsStand(id, a, other, b);
    BasesStand(id, a, other, b);
  }

  lemma BasesWithin(a: ActionSpec, b: ActionSpec)
    requires Inputs(a) == Inputs(b)
    ensures Elements(Bases(a)) <= Elements(Bases(b))
    ensures Elements(Readers(a.inputs)) <= Elements(Readers(b.inputs))
    ensures Elements(FixedPairs(a.inputs)) <= Elements(FixedPairs(b.inputs))
  {
    ReadersAre(a.inputs);
    ReadersAre(b.inputs);
    FixedPairsAre(a.inputs);
    FixedPairsAre(b.inputs);
    forall base | base in Elements(Bases(a)) ensures base in Elements(Bases(b)) {
      var i := BaseFrom(a, base);
      var j := Alike(a, b, i);
      BaseIn(b, j);
    }
    forall n | n in Readers(a.inputs) ensures n in Readers(b.inputs) {
      var i :| i in a.inputs && i.readsBody && i.name == n;
      var j := Alike(a, b, i);
    }
    forall p | p in FixedPairs(a.inputs) ensures p in FixedPairs(b.inputs) {
      var i :| i in a.inputs && i.fixed.Some? && p == Pair(i.name, i.fixed.value);
      var j := Alike(a, b, i);
      assert BaseOf(i).name == BaseOf(j).name;
    }
  }

  lemma Alike(a: ActionSpec, b: ActionSpec, i: ArgSpec) returns (j: ArgSpec)
    requires Inputs(a) == Inputs(b) && i in a.inputs
    ensures j in b.inputs && InputOf(j) == InputOf(i) && j.name == i.name
  {
    BaseIn(a, i);
    j :| j in b.inputs && InputOf(j) == InputOf(i);
    assert BaseOf(i).name == BaseOf(j).name;
  }

  // One contract is told as one, whatever its names.
  lemma ContractIsTold(a: ActionSpec, b: ActionSpec)
    requires Canon(a) == Canon(b)
    ensures ToldBy(a) == ToldBy(b)
  {
    BasesWithin(a, b);
    BasesWithin(b, a);
  }

  // With distinct names, none holding a NUL, what is told is the contract.
  lemma ToldIsContract(a: ActionSpec, b: ActionSpec)
    requires WellNamed(a) && WellNamed(b) && ToldBy(a) == ToldBy(b)
    ensures Canon(a) == Canon(b)
  {
    InputsWithin(a, b);
    InputsWithin(b, a);
  }

  lemma BodyV2Determined(id: Bytes, a: ActionSpec, other: Bytes, b: ActionSpec)
    requires Addressable(id, a) && Addressable(other, b) && ToldBy(a) == ToldBy(b)
    ensures BodyV2(a) == BodyV2(b)
  {
    BasesStand(id, a, other, b);
    GroupsStand(id, a, other, b);
    SetIsOrderFree(InputItems(a), InputItems(b));
    SetIsOrderFree(GroupItems(a), GroupItems(b));
    FailureTailDetermined(a.failures, b.failures);
    SetTailDetermined(3, Readers(a.inputs), Readers(b.inputs));
    SetTailDetermined(4, FixedPairs(a.inputs), FixedPairs(b.inputs));
    SetIsOrderFree(a.outputs, b.outputs);
    SetIsOrderFree(a.requires_, b.requires_);
  }

  // Whether an input needs the second form is told.
  lemma InputFormTold(a: ActionSpec, b: ActionSpec, i: ArgSpec) returns (j: ArgSpec)
    requires ToldBy(a) == ToldBy(b) && i in a.inputs && InputUsesV2(i)
    ensures j in b.inputs && InputUsesV2(j)
  {
    ReadersAre(a.inputs);
    ReadersAre(b.inputs);
    FixedPairsAre(a.inputs);
    FixedPairsAre(b.inputs);
    if i.readsBody {
      assert i.name in Elements(Readers(b.inputs));
      j :| j in b.inputs && j.readsBody && j.name == i.name;
    } else if i.fixed.Some? {
      var pair := Pair(i.name, i.fixed.value);
      assert pair in Elements(FixedPairs(b.inputs));
      j :| j in b.inputs && j.fixed.Some? && pair == Pair(j.name, j.fixed.value);
    } else {
      BaseIn(a, i);
      j := BaseFrom(b, BaseOf(i));
      BaseFormDetermined(i, j);
    }
  }

  lemma BaseFormDetermined(i: ArgSpec, j: ArgSpec)
    requires BaseOf(i) == BaseOf(j) && InputUsesV2(i) && !i.readsBody && i.fixed.None?
    ensures InputUsesV2(j)
  {
    ElementsEmpty(i.needs);
    ElementsEmpty(j.needs);
    ElementsEmpty(i.examples);
    ElementsEmpty(j.examples);
    NotesDetermined(i.values, j.values);
  }

  // Which form a contract is hashed under is told by the rest of it.
  lemma FormDetermined(a: ActionSpec, b: ActionSpec)
    requires ToldBy(a) == ToldBy(b) && UsesV2(a)
    ensures UsesV2(b)
  {
    GroupsElements(a.groups);
    GroupsElements(b.groups);
    ElementsEmpty(GroupsOf(a.groups));
    ElementsEmpty(GroupsOf(b.groups));
    if k :| 0 <= k < |a.inputs| && InputUsesV2(a.inputs[k]) {
      var j := InputFormTold(a, b, a.inputs[k]);
      var l :| 0 <= l < |b.inputs| && b.inputs[l] == j;
      assert InputUsesV2(b.inputs[l]);
    }
  }

  // In the first form the bases are the inputs.
  lemma PlainInputsWithin(a: ActionSpec, b: ActionSpec)
    requires !UsesV2(a) && !UsesV2(b) && Elements(Bases(a)) == Elements(Bases(b))
    ensures Inputs(a) <= Inputs(b)
  {
    forall c | c in Inputs(a) ensures c in Inputs(b) {
      var i :| i in a.inputs && c == InputOf(i);
      BaseIn(a, i);
      var j := BaseFrom(b, BaseOf(i));
      BaseIn(b, j);
    }
  }

  lemma VerbsDistinct(v: Verb, w: Verb)
    requires Encode(VerbSegment(v)) == Encode(VerbSegment(w))
    ensures v == w
  {
    EncodeInjective(VerbSegment(v), VerbSegment(w));
    VerbsParse(v);
    VerbsParse(w);
  }

  lemma FormsDiffer()
    ensures FORM_V1 != FORM_V2 && Short(FORM_V1) && Short(FORM_V2)
  {
    var v1, v2 := "ikigai:contract:v1", "ikigai:contract:v2";
    assert v1[17] != v2[17];
    if Encode(v1) == Encode(v2) {
      EncodeInjective(v1, v2);
    }
    EncodeLength(v1);
    EncodeLength(v2);
  }

  function Body(a: ActionSpec): seq<Byte> { if UsesV2(a) then BodyV2(a) else BodyV1(a) }
  function Form(a: ActionSpec): Bytes { if UsesV2(a) then FORM_V2 else FORM_V1 }

  function AfterId(a: ActionSpec): seq<Byte> { Str(Encode(VerbSegment(a.verb))) + AfterVerb(a) }
  function AfterVerb(a: ActionSpec): seq<Byte> { Str(a.summary) + Body(a) }

  lemma FormCancels(id: Bytes, a: ActionSpec, other: Bytes, b: ActionSpec)
    requires Short(id) && Short(other) && Fed(id, a) == Fed(other, b)
    ensures (UsesV2(a) <==> UsesV2(b)) && id == other && AfterId(a) == AfterId(b)
  {
    FormsDiffer();
    StrCancels(Form(a), Str(id) + AfterId(a), Form(b), Str(other) + AfterId(b));
    StrCancels(id, AfterId(a), other, AfterId(b));
  }

  lemma WordCancels(v: Verb, x: seq<Byte>, w: Verb, y: seq<Byte>)
    requires Str(Encode(VerbSegment(v))) + x == Str(Encode(VerbSegment(w))) + y
    ensures v == w && x == y
  {
    var s, t := VerbSegment(v), VerbSegment(w);
    assert |s| < 8 && |t| < 8;
    EncodeLength(s);
    EncodeLength(t);
    StrCancels(Encode(s), x, Encode(t), y);
    VerbsDistinct(v, w);
  }

  // The header names the form, the endpoint, the verb and the summary.
  lemma HeaderCancels(id: Bytes, a: ActionSpec, other: Bytes, b: ActionSpec)
    requires Short(id) && Short(a.summary) && Short(other) && Short(b.summary) && Fed(id, a) == Fed(other, b)
    ensures id == other && a.verb == b.verb && a.summary == b.summary && (UsesV2(a) <==> UsesV2(b))
            && Body(a) == Body(b)
  {
    FormCancels(id, a, other, b);
    WordCancels(a.verb, AfterVerb(a), b.verb, AfterVerb(b));
    StrCancels(a.summary, Body(a), b.summary, Body(b));
  }

  // Nothing the second form carries is stated by an action the first form carries.
  lemma FirstFormStates(a: ActionSpec, b: ActionSpec)
    requires !UsesV2(a) && !UsesV2(b)
    ensures Canon(a).groups == Canon(b).groups && a.arguments == b.arguments && a.outputFrom == b.outputFrom
    ensures Canon(a).failures == Canon(b).failures && a.existenceSensitive == b.existenceSensitive
  {
    GroupsElements(a.groups);
    GroupsElements(b.groups);
  }

  // Whatever the names, two endpoints and actions feed the hasher the same bytes exactly when they are
  // the same endpoint and tell the same.
  lemma SameBytesIffSameTold(id: Bytes, a: ActionSpec, other: Bytes, b: ActionSpec)
    requires Addressable(id, a) && Addressable(other, b)
    ensures Fed(id, a) == Fed(other, b) <==> id == other && ToldBy(a) == ToldBy(b)
  {
    if Fed(id, a) == Fed(other, b) {
      SameBytesSameTold(id, a, other, b);
    } else if id == other && ToldBy(a) == ToldBy(b) {
      ToldFeedsOneStream(id, a, b);
    }
  }

  lemma SameBytesSameTold(id: Bytes, a: ActionSpec, other: Bytes, b: ActionSpec)
    requires Addressable(id, a) && Addressable(other, b) && Fed(id, a) == Fed(other, b)
    ensures id == other && ToldBy(a) == ToldBy(b)
  {
    HeaderCancels(id, a, other, b);
    if UsesV2(a) {
      BodyV2Cancels(id, a, other, b);
    } else {
      BodyV1Cancels(id, a, other, b);
      FirstFormStates(a, b);
      ContractIsTold(a, b);
    }
  }

  lemma ToldFeedsOneStream(id: Bytes, a: ActionSpec, b: ActionSpec)
    requires Addressable(id, a) && Addressable(id, b) && ToldBy(a) == ToldBy(b)
    ensures Fed(id, a) == Fed(id, b)
  {
    if UsesV2(a) {
      FormDetermined(a, b);
      BodyV2Determined(id, a, id, b);
    } else {
      if UsesV2(b) {
        FormDetermined(b, a);
      }
      PlainInputsWithin(a, b);
      PlainInputsWithin(b, a);
      SortedInputsDetermined(a, b);
      SetIsOrderFree(a.outputs, b.outputs);
      SetIsOrderFree(a.requires_, b.requires_);
    }
  }

  // Two endpoints and actions with distinct input names feed the hasher the same bytes exactly when
  // they are the same endpoint and the same contract, up to the order and repetition of set-valued
  // fields.
  lemma SameBytesIffSameContract(id: Bytes, a: ActionSpec, other: Bytes, b: ActionSpec)
    requires Addressable(id, a) && Addressable(other, b) && WellNamed(a) && WellNamed(b)
    ensures Fed(id, a) == Fed(other, b) <==> id == other && Canon(a) == Canon(b)
  {
    SameBytesIffSameTold(id, a, other, b);
    if Fed(id, a) == Fed(other, b) {
      ToldIsContract(a, b);
    } else if Canon(a) == Canon(b) {
      ContractIsTold(a, b);
    }
  }

  // And so do any two of which one is of the first form, whatever their names.
  lemma FirstFormIffSameContract(id: Bytes, a: ActionSpec, other: Bytes, b: ActionSpec)
    requires Addressable(id, a) && Addressable(other, b) && !UsesV2(a)
    ensures Fed(id, a) == Fed(other, b) <==> id == other && Canon(a) == Canon(b)
  {
    SameBytesIffSameTold(id, a, other, b);
    if ToldBy(a) == ToldBy(b) {
      FirstFormToldIsContract(a, b);
    } else if Canon(a) == Canon(b) {
      ContractIsTold(a, b);
    }
  }

  lemma FirstFormToldIsContract(a: ActionSpec, b: ActionSpec)
    requires !UsesV2(a) && ToldBy(a) == ToldBy(b)
    ensures Canon(a) == Canon(b)
  {
    if UsesV2(b) {
      FormDetermined(b, a);
    }
    PlainInputsWithin(a, b);
    PlainInputsWithin(b, a);
  }

  // Order and repetition are never part of a contract's identity, whatever its names.
  lemma ContractFeedsOneStream(id: Bytes, a: ActionSpec, other: Bytes, b: ActionSpec)
    requires Addressable(id, a) && Addressable(other, b) && id == other && Canon(a) == Canon(b)
    ensures Fed(id, a) == Fed(other, b)
  {
    ContractIsTold(a, b);
    ToldFeedsOneStream(id, a, b);
  }

  // Two inputs, the first or the second of them read as a body.
  function Reading(i: ArgSpec, j: ArgSpec, first: bool): seq<ArgSpec> {
    [i.(readsBody := first), j.(readsBody := !first)]
  }

  lemma ListsOfTwo(x: ArgSpec, y: ArgSpec)
    ensures Readers([x, y]) == (if x.readsBody then [x.name] else []) + if y.readsBody then [y.name] else []
    ensures FixedPairs([x, y])
         == (if x.fixed.Some? then [Pair(x.name, x.fixed.value)] else [])
            + if y.fixed.Some? then [Pair(y.name, y.fixed.value)] else []
  {
    assert [x, y][1..] == [y] && [y][1..] == [];
    assert Readers([y]) == if y.readsBody then [y.name] else [];
    assert FixedPairs([y]) == if y.fixed.Some? then [Pair(y.name, y.fixed.value)] else [];
  }

  lemma ReadingLists(i: ArgSpec, j: ArgSpec, first: bool)
    requires i.name == j.name
    ensures Readers(Reading(i, j, first)) == [i.name] && FixedPairs(Reading(i, j, first)) == FixedPairs([i, j])
  {
    ListsOfTwo(i.(readsBody := first), j.(readsBody := !first));
    ListsOfTwo(i, j);
  }

  lemma ReadingUnseen(i: ArgSpec, whole: bool)
    ensures InputBytes(i.(readsBody := whole)) == InputBytes(i)
  {
  }

  lemma ReadingUses(a: ActionSpec, i: ArgSpec, j: ArgSpec, first: bool)
    requires a.inputs == Reading(i, j, first)
    ensures UsesV2(a)
  {
    assert InputUsesV2(a.inputs[if first then 0 else 1]);
  }

  lemma ItemsOfTwo(a: ActionSpec, x: Bytes, y: Bytes)
    requires |a.inputs| == 2 && InputBytes(a.inputs[0]) == x && InputBytes(a.inputs[1]) == y
    ensures InputItems(a) == [x, y]
  {
  }

  lemma ReadingItems(a: ActionSpec, i: ArgSpec, j: ArgSpec, first: bool)
    requires a.inputs == Reading(i, j, first)
    ensures UsesV2(a) && InputItems(a) == [InputBytes(i), InputBytes(j)]
  {
    ReadingUses(a, i, j, first);
    ReadingUnseen(i, first);
    ReadingUnseen(j, !first);
    ItemsOfTwo(a, InputBytes(i), InputBytes(j));
  }

  lemma ReadingIsTold(i: ArgSpec, j: ArgSpec, a: ActionSpec, b: ActionSpec)
    requires BaseOf(i) != BaseOf(j) && a.inputs == Reading(i, j, true) && b.inputs == Reading(i, j, false)
    ensures Inputs(a) != Inputs(b)
  {
    assert BaseOf(a.inputs[0]) == BaseOf(i) && BaseOf(b.inputs[1]) == BaseOf(j);
    BaseIn(a, a.inputs[0]);
  }

  // The tails name an input and do not repeat it, so two different inputs of one name can trade the
  // body between them unnoticed: in the second form, what is told is less than the contract.
  lemma RepeatedNameCollides(id: Bytes, i: ArgSpec, j: ArgSpec, a: ActionSpec, b: ActionSpec)
    requires i.name == j.name && BaseOf(i) != BaseOf(j)
    requires a.inputs == Reading(i, j, true) && b == a.(inputs := Reading(i, j, false))
    ensures Fed(id, a) == Fed(id, b) && Canon(a) != Canon(b)
  {
    ReadingItems(a, i, j, true);
    ReadingItems(b, i, j, false);
    ReadingLists(i, j, true);
    ReadingLists(i, j, false);
    ReadingIsTold(i, j, a, b);
  }
}
