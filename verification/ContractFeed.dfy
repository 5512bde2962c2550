// Feeding a contract to the hasher (crates/ikigai-core/src/contract.rs:69-181, 446-466 and
// 577-679; crates/ikigai-core/src/hashing.rs:9-39): the calls that append, one after the other,
// the bytes the identity is taken of. The same calls serve the hasher and the buffer one item of
// the second form is encoded in.

module Concat {
  // Appending one after the other is appending the whole.
  lemma Cat2<T>(o: seq<T>, a: seq<T>, b: seq<T>)
    ensures o + a + b == o + (a + b)
  {
  }

  lemma Cat3<T>(o: seq<T>, a: seq<T>, b: seq<T>, c: seq<T>)
    ensures o + a + b + c == o + (a + (b + c))
  {
    Cat2(o + a, b, c);
    Cat2(o, a, b + c);
  }

  lemma TakeNext<T>(s: seq<T>, k: nat)
    requires k < |s|
    ensures s[..k + 1] == s[..k] + [s[k]]
  {
  }

  lemma TakeAll<T>(s: seq<T>)
    ensures s[..|s|] == s
  {
  }

  lemma Cat4<T>(o: seq<T>, a: seq<T>, b: seq<T>, c: seq<T>, d: seq<T>)
    ensures o + a + b + c + d == o + (a + (b + (c + d)))
  {
    Cat3(o + a, b, c, d);
    Cat2(o, a, b + (c + d));
  }

  lemma Cat7<T>(o: seq<T>, a: seq<T>, b: seq<T>, c: seq<T>, d: seq<T>, e: seq<T>, f: seq<T>, g: seq<T>)
    ensures o + a + b + c + d + e + f + g == o + (a + (b + (c + (d + (e + (f + g))))))
  {
    Cat4(o + a + b + c, d, e, f, g);
    Cat4(o, a, b, c, d + (e + (f + g)));
  }
}

module ContractFeed {
  import opened Concat
  import opened Wrappers
  import opened Utf8
  import opened Sorting
  import opened Framing
  import opened ContractIris
  import opened Contracts

  class Sink {
    var fed: Bytes

    constructor ()
      ensures fed == []
    {
      fed := [];
    }

    method FeedByte(b: Byte)
      modifies this
      ensures fed == old(fed) + [b]
    {
      fed := fed + [b];
    }

    method FeedU64(n: nat)
      modifies this
      ensures fed == old(fed) + U64(n)
    {
      fed := fed + U64(n);
    }

    method FeedBytes(s: Bytes)
      modifies this
      ensures fed == old(fed) + Str(s)
    {
      FeedU64(|s|);
      fed := fed + s;
      Cat2(old(fed), U64(|s|), s);
    }

    method FeedOption(o: Option<Bytes>)
      modifies this
      ensures fed == old(fed) + Opt(o)
    {
      match o
      case None => FeedByte(0);
      case Some(s) =>
        FeedByte(1);
        FeedBytes(s);
        Cat2(old(fed), [1], Str(s));
    }

    // A set, and equally a set of encoded items: sorted, deduplicated, counted, each framed.
    method FeedSet(values: seq<Bytes>)
      modifies this
      ensures fed == old(fed) + SetOf(values)
    {
      var sorted := SortDedup(values, TextLess);
      FeedU64(|sorted|);
      ghost var counted := fed;
      for k := 0 to |sorted|
        invariant fed + Strs(sorted[k..]) == counted + Strs(sorted)
      {
        ghost var before := fed;
        FeedBytes(sorted[k]);
        assert sorted[k..][1..] == sorted[k + 1..];
        Cat2(before, Str(sorted[k]), Strs(sorted[k + 1..]));
      }
      assert sorted[|sorted|..] == [] && fed + [] == fed;
      Cat2(old(fed), U64(|sorted|), Strs(sorted));
    }

    // An input's own fields, as both forms write them.
    method FeedHead(i: ArgSpec)
      modifies this
      ensures fed == old(fed) + HeadBytes(i)
    {
      FeedBytes(i.name);
      FeedBytes(i.summary);
      FeedByte(if i.required then 1 else 0);
      FeedByte(if i.source.Argument? then 0 else 1);
      FeedOption(i.class_);
      FeedOption(i.default);
      FeedSet(i.oneOf);
      Cat7(old(fed), Str(i.name), Str(i.summary), Flag(i.required), SourceByte(i.source), Opt(i.class_),
           Opt(i.default), SetOf(i.oneOf));
    }

    method FeedNotes(values: seq<(Bytes, ValueNote)>)
      modifies this
      ensures fed == old(fed) + NotesBytes(values)
    {
      for k := 0 to |values|
        invariant fed + NotesBytes(values[k..]) == old(fed) + NotesBytes(values)
      {
        ghost var before := fed;
        FeedNote(values[k].0, values[k].1);
        assert values[k..][1..] == values[k + 1..];
        Cat2(before, NoteBytes(values[k].0, values[k].1), NotesBytes(values[k + 1..]));
      }
      assert values[|values|..] == [] && fed + [] == fed;
    }

    method FeedNote(value: Bytes, note: ValueNote)
      modifies this
      ensures fed == old(fed) + NoteBytes(value, note)
    {
      FeedBytes(value);
      FeedBytes(note.summary);
      FeedSet(note.tags);
      FeedSet(note.needs);
      Cat4(old(fed), Str(value), Str(note.summary), SetOf(note.tags), SetOf(note.needs));
    }

    method FeedHeads(inputs: seq<ArgSpec>)
      modifies this
      ensures fed == old(fed) + HeadsBytes(inputs)
    {
      for k := 0 to |inputs|
        invariant fed + HeadsBytes(inputs[k..]) == old(fed) + HeadsBytes(inputs)
      {
        ghost var before := fed;
        FeedHead(inputs[k]);
        assert inputs[k..][1..] == inputs[k + 1..];
        Cat2(before, HeadBytes(inputs[k]), HeadsBytes(inputs[k + 1..]));
      }
      assert inputs[|inputs|..] == [] && fed + [] == fed;
    }

    method FeedArguments(arguments: Arguments)
      modifies this
      ensures fed == old(fed) + ArgumentsBytes(arguments)
    {
      match arguments
      case Closed => FeedByte(0);
      case Open(summary) =>
        FeedByte(1);
        FeedBytes(summary);
        Cat2(old(fed), [1], Str(summary));
      case Envelope(carrier) =>
        FeedByte(2);
        FeedBytes(carrier);
        Cat2(old(fed), [2], Str(carrier));
    }

    method FeedOutputFrom(from: Option<OutputFrom>)
      modifies this
      ensures fed == old(fed) + OutputFromBytes(from)
    {
      match from
      case None => FeedByte(0);
      case Some(FromInput(name)) =>
        FeedByte(1);
        FeedBytes(name);
        Cat2(old(fed), [1], Str(name));
      case Some(FromOrigin) => FeedByte(2);
    }

    method FeedSetTail(tag: Byte, values: seq<Bytes>)
      modifies this
      ensures fed == old(fed) + SetTail(tag, values)
    {
      if values != [] {
        FeedByte(tag);
        FeedSet(values);
        Cat2(old(fed), [tag], SetOf(values));
      } else {
        assert fed == old(fed) + [];
      }
    }

    // The tails, each only when there is something to say.
    method FeedTails(a: ActionSpec)
      modifies this
      ensures fed == old(fed) + Tails(a)
    {
      FeedFailures(a.failures);
      if a.existenceSensitive {
        FeedByte(2);
      } else {
        assert fed == fed + [];
      }
      FeedSetTail(3, Readers(a.inputs));
      FeedSetTail(4, FixedPairs(a.inputs));
      Cat4(old(fed), FailureTail(a.failures), ExistenceTail(a.existenceSensitive), SetTail(3, Readers(a.inputs)),
           SetTail(4, FixedPairs(a.inputs)));
    }

    method FeedFailures(failures: Failures)
      modifies this
      ensures fed == old(fed) + FailureTail(failures)
    {
      match failures
      case Unstated => assert fed == old(fed) + [];
      case Only(classes) =>
        FeedByte(1);
        FeedSet(FailureItems(classes));
        Cat2(old(fed), [1], SetOf(FailureItems(classes)));
    }
  }

  // One input whole.
  method InputV2(i: ArgSpec) returns (item: Bytes)
    ensures item == InputBytes(i)
  {
    var c := new Sink();
    c.FeedHead(i);
    c.FeedSet(i.needs);
    c.FeedOption(ListWord(i.list));
    c.FeedU64(|i.values|);
    c.FeedNotes(i.values);
    c.FeedByte(if i.EmptyEnumeration() then 1 else 0);
    c.FeedSet(i.examples);
    item := c.fed;
    assert [] + HeadBytes(i) == HeadBytes(i);
    var note, empty := NotesBytes(i.values), Flag(i.EmptyEnumeration());
    Cat4(HeadBytes(i) + SetOf(i.needs) + Opt(ListWord(i.list)), U64(|i.values|), note, empty, SetOf(i.examples));
    Cat3(HeadBytes(i), SetOf(i.needs), Opt(ListWord(i.list)), U64(|i.values|) + (note + (empty + SetOf(i.examples))));
  }

  // One group whole.
  method GroupV2(g: InputGroup) returns (item: Bytes)
    ensures item == GroupBytes(g)
  {
    var c := new Sink();
    c.FeedBytes(Encode(KindWord(g.kind)));
    c.FeedSet(g.members);
    c.FeedOption(g.pipe);
    item := c.fed;
    var word := Str(Encode(KindWord(g.kind)));
    assert [] + word == word;
    Cat2(word, SetOf(g.members), Opt(g.pipe));
  }

  method InputsV2(a: ActionSpec) returns (items: seq<Bytes>)
    ensures items == InputItems(a)
  {
    items := [];
    for k := 0 to |a.inputs|
      invariant items == InputItems(a)[..k]
    {
      var item := InputV2(a.inputs[k]);
      items := items + [item];
      TakeNext(InputItems(a), k);
    }
    TakeAll(InputItems(a));
  }

  method GroupsV2(a: ActionSpec) returns (items: seq<Bytes>)
    ensures items == GroupItems(a)
  {
    items := [];
    for k := 0 to |a.groups|
      invariant items == GroupItems(a)[..k]
    {
      var item := GroupV2(a.groups[k]);
      items := items + [item];
      TakeNext(GroupItems(a), k);
    }
    TakeAll(GroupItems(a));
  }

  method FeedHeader(h: Sink, form: Bytes, id: Bytes, a: ActionSpec)
    modifies h
    ensures h.fed == old(h.fed) + (Str(form) + (Str(id) + (Str(Encode(VerbSegment(a.verb))) + Str(a.summary))))
  {
    h.FeedBytes(form);
    h.FeedBytes(id);
    h.FeedBytes(Encode(VerbSegment(a.verb)));
    h.FeedBytes(a.summary);
    Cat4(old(h.fed), Str(form), Str(id), Str(Encode(VerbSegment(a.verb))), Str(a.summary));
  }

  method FeedV1(h: Sink, a: ActionSpec)
    modifies h
    ensures h.fed == old(h.fed) + BodyV1(a)
  {
    var inputs := SortedInputs(a);
    h.FeedU64(|inputs|);
    h.FeedHeads(inputs);
    h.FeedSet(a.outputs);
    h.FeedSet(a.requires_);
    Cat4(old(h.fed), U64(|inputs|), HeadsBytes(inputs), SetOf(a.outputs), SetOf(a.requires_));
  }

  method FeedV2(h: Sink, a: ActionSpec)
    modifies h
    ensures h.fed == old(h.fed) + BodyV2(a)
  {
    var inputs := InputsV2(a);
    h.FeedSet(inputs);
    h.FeedSet(a.outputs);
    h.FeedSet(a.requires_);
    var groups := GroupsV2(a);
    h.FeedSet(groups);
    h.FeedArguments(a.arguments);
    h.FeedOutputFrom(a.outputFrom);
    h.FeedTails(a);
    Cat7(old(h.fed), SetOf(inputs), SetOf(a.outputs), SetOf(a.requires_), SetOf(groups), ArgumentsBytes(a.arguments),
         OutputFromBytes(a.outputFrom), Tails(a));
  }

  // Everything an action's identity is the digest of.
  method ContractId(id: Bytes, a: ActionSpec) returns (fed: Bytes)
    ensures fed == Fed(id, a)
  {
    var h := new Sink();
    if UsesV2(a) {
      FeedHeader(h, FORM_V2, id, a);
      FeedV2(h, a);
    } else {
      FeedHeader(h, FORM_V1, id, a);
      FeedV1(h, a);
    }
    fed := h.fed;
    Assembled(Str(if UsesV2(a) then FORM_V2 else FORM_V1), Str(id), Str(Encode(VerbSegment(a.verb))), Str(a.summary),
              if UsesV2(a) then BodyV2(a) else BodyV1(a));
  }

  lemma Assembled(form: Bytes, id: Bytes, verb: Bytes, summary: Bytes, body: Bytes)
    ensures [] + (form + (id + (verb + summary))) + body == form + (id + (verb + (summary + body)))
  {
    Cat3(form, id, verb, summary);
    Cat4(form, id, verb, summary, body);
    assert [] + (form + (id + (verb + summary))) == form + (id + (verb + summary));
  }
}
