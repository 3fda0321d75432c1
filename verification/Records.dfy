/**
 The bug tracker's records as values, the stream of parser events, and what the record builder makes of it.
 */
module Records {
  import opened Wrappers

  datatype Kind = Artifacts | Artifact | History | Message

  /** A record with its fields and the lists of records it holds. */
  datatype Record = Record(kind: Kind, fields: map<string, string>,
                           artifacts: seq<Record>, messages: seq<Record>, histories: seq<Record>)

  function Empty(kind: Kind): Record {
    Record(kind, map[], [], [], [])
  }

  /** Fielded.add: text for a name already there is appended to it. */
  function AddText(r: Record, name: string, content: string): Record {
    r.(fields := r.fields[name := (if name in r.fields then r.fields[name] else "") + content])
  }

  /** Which records have a list for records of the given kind. */
  predicate Holds(parent: Kind, child: Kind) {
    match child
    case Artifacts => false
    case Artifact => parent == Artifacts
    case History => parent == Artifact
    case Message => parent == Artifact || parent == History
  }

  /** The parent with the child at the end of the list for kind. */
  function Append(parent: Record, kind: Kind, child: Record): Record
    requires Holds(parent.kind, kind)
  {
    match kind
    case Artifact => parent.(artifacts := parent.artifacts + [child])
    case History => parent.(histories := parent.histories + [child])
    case Message => parent.(messages := parent.messages + [child])
  }

  // ---------- events ----------

  datatype Tag = Rec(kind: Kind) | Field | Unknown(name: string)

  datatype Event =
    | Start(tag: Tag, name: Option<string>)
    | End(tag: Tag)
    | Text(content: string)

  /** The state of ArtifactGrabber; Crashed stands for the exception that ends the parse. */
  datatype Grabber =
    | Grabber(current: seq<Record>, root: Option<Record>, inNamedField: bool, fieldName: string)
    | Crashed

  const INITIAL: Grabber := Grabber([], None, false, "")

  function OnStart(g: Grabber, tag: Tag, name: Option<string>): Grabber
    requires g.Grabber?
  {
    match tag
    case Rec(k) => g.(current := g.current + [Empty(k)])
    case Field => if g.current != [] && name.Some? then g.(inNamedField := true, fieldName := name.value) else g
    case Unknown(_) => g
  }

  function OnEnd(g: Grabber, tag: Tag): Grabber
    requires g.Grabber?
  {
    match tag
    case Rec(k) =>
      var n := |g.current|;
      if n == 0 then Crashed
      else if k == Artifacts then g.(root := Some(g.current[n - 1]), current := g.current[..n - 1])
      else if n == 1 || !Holds(g.current[n - 2].kind, k) then Crashed
      else g.(current := g.current[..n - 2] + [Append(g.current[n - 2], k, g.current[n - 1])])
    case Field => g.(inNamedField := false)
    case Unknown(_) => g
  }

  function OnText(g: Grabber, content: string): Grabber
    requires g.Grabber?
  {
    var n := |g.current|;
    if !g.inNamedField then g
    else if n == 0 then Crashed
    else g.(current := g.current[..n - 1] + [AddText(g.current[n - 1], g.fieldName, content)])
  }

  /** Where the handlers end in an exception: no open record to close or to put text in, or no list for it in its parent. */
  lemma CrashesExactly(g: Grabber, tag: Tag, content: string)
    requires g.Grabber?
    ensures var n := |g.current|;
      && (OnEnd(g, tag).Crashed? <==>
            tag.Rec? && (n == 0 || (tag.kind != Artifacts && (n == 1 || !Holds(g.current[n - 2].kind, tag.kind)))))
      && (OnText(g, content).Crashed? <==> g.inNamedField && n == 0)
  {
  }

  /** A field outside all records, and an element of no known kind, change nothing. */
  lemma Ignored(g: Grabber, name: Option<string>, other: string)
    requires g.Grabber?
    ensures g.current == [] ==> OnStart(g, Field, name) == g
    ensures OnStart(g, Unknown(other), name) == g && OnEnd(g, Unknown(other)) == g
  {
  }

  function OnEvent(g: Grabber, e: Event): Grabber {
    if g.Crashed? then g
    else
      match e
      case Start(tag, name) => OnStart(g, tag, name)
      case End(tag) => OnEnd(g, tag)
      case Text(content) => OnText(g, content)
  }

  function Feed(g: Grabber, events: seq<Event>): Grabber
    decreases events
  {
    if events == [] then g else Feed(OnEvent(g, events[0]), events[1..])
  }

  lemma {:induction false} FeedConcat(g: Grabber, a: seq<Event>, b: seq<Event>)
    ensures Feed(g, a + b) == Feed(Feed(g, a), b)
    decreases a
  {
    if a == [] {
      assert a + b == b;
    } else {
      assert (a + b)[1..] == a[1..] + b;
      FeedConcat(OnEvent(g, a[0]), a[1..], b);
    }
  }

  // ---------- documents ----------

  /** An element of a record kind with what stands between its tags. */
  datatype Elem = Elem(kind: Kind, items: seq<Item>)

  /** Between the tags of a field: some of its characters, or a tag of an unknown element. */
  datatype Chunk = Chars(text: string) | Tagged(other: string, opening: bool)

  /** A field's text comes in chunks; unnamed fields, text outside fields and tags of unknown elements are noise. */
  datatype Item =
    | NamedField(name: string, chunks: seq<Chunk>)
    | UnnamedField(chunks: seq<Chunk>)
    | Child(e: Elem)
    | Noise(text: string)
    | Mark(other: string, opening: bool)

  function UnknownTag(other: string, opening: bool): Event {
    if opening then Start(Unknown(other), None) else End(Unknown(other))
  }

  function ChunkEvent(chunk: Chunk): Event {
    match chunk
    case Chars(text) => Text(text)
    case Tagged(other, opening) => UnknownTag(other, opening)
  }

  function Chunks(chunks: seq<Chunk>): seq<Event> {
    if chunks == [] then [] else [ChunkEvent(chunks[0])] + Chunks(chunks[1..])
  }

  function Events(e: Elem): seq<Event>
    decreases e, 1
  {
    [Start(Rec(e.kind), None)] + EventsOfAll(e.items) + [End(Rec(e.kind))]
  }

  function EventsOf(item: Item): seq<Event>
    decreases item, 2
  {
    match item
    case NamedField(name, chunks) => [Start(Field, Some(name))] + Chunks(chunks) + [End(Field)]
    case UnnamedField(chunks) => [Start(Field, None)] + Chunks(chunks) + [End(Field)]
    case Child(e) => Events(e)
    case Noise(text) => [Text(text)]
    case Mark(other, opening) => [UnknownTag(other, opening)]
  }

  function EventsOfAll(items: seq<Item>): seq<Event>
    decreases items, 0
  {
    if items == [] then [] else EventsOf(items[0]) + EventsOfAll(items[1..])
  }

  /** Every element stands inside an element that has a list for it. */
  predicate Nested(e: Elem)
    decreases e, 1
  {
    NestedAll(e.kind, e.items)
  }

  predicate NestedAll(kind: Kind, items: seq<Item>)
    decreases items, 0
  {
    items == [] || (NestedItem(kind, items[0]) && NestedAll(kind, items[1..]))
  }

  predicate NestedItem(kind: Kind, item: Item)
    decreases item, 2
  {
    item.Child? ==> Holds(kind, item.e.kind) && Nested(item.e)
  }

  // ---------- what a document means ----------

  function TextOf(chunk: Chunk): string {
    if chunk.Chars? then chunk.text else ""
  }

  function Concat(chunks: seq<Chunk>): string {
    if chunks == [] then "" else TextOf(chunks[0]) + Concat(chunks[1..])
  }

  predicate HasText(chunks: seq<Chunk>) {
    chunks != [] && (chunks[0].Chars? || HasText(chunks[1..]))
  }

  /** All the text given for a field name, in document order. */
  function FieldText(items: seq<Item>, name: string): string {
    if items == [] then ""
    else (if items[0].NamedField? && items[0].name == name then Concat(items[0].chunks) else "") + FieldText(items[1..], name)
  }

  /** The names for which some text was given. */
  function FieldNames(items: seq<Item>): set<string> {
    if items == [] then {}
    else (if items[0].NamedField? && HasText(items[0].chunks) then {items[0].name} else {}) + FieldNames(items[1..])
  }

  /** The records that the children of one kind stand for, in document order. */
  function Children(items: seq<Item>, kind: Kind): seq<Record>
    decreases items, 0
  {
    if items == [] then [] else ChildrenIn(items[0], kind) + Children(items[1..], kind)
  }

  function ChildrenIn(item: Item, kind: Kind): seq<Record>
    decreases item, 2
  {
    if item.Child? && item.e.kind == kind then [Denote(item.e)] else []
  }

  /** The record an element stands for. */
  function Denote(e: Elem): Record
    decreases e, 1
  {
    Record(e.kind, map name | name in FieldNames(e.items) :: FieldText(e.items, name),
           Children(e.items, Artifact), Children(e.items, Message), Children(e.items, History))
  }

  // ---------- what a document means, in document order ----------

  /** The text of two runs of chunks is the text of the first, then that of the second. */
  lemma {:induction false} ConcatInOrder(a: seq<Chunk>, b: seq<Chunk>)
    ensures Concat(a + b) == Concat(a) + Concat(b)
  {
    if a == [] {
      assert a + b == b;
    } else {
      assert (a + b)[1..] == a[1..] + b;
      ConcatInOrder(a[1..], b);
    }
  }

  lemma ConcatOfOne(chunk: Chunk)
    ensures Concat([chunk]) == if chunk.Chars? then chunk.text else ""
  {
    assert [chunk][1..] == [];
  }

  /** So is the text of a field given in two places. */
  lemma {:induction false} FieldTextInOrder(a: seq<Item>, b: seq<Item>, name: string)
    ensures FieldText(a + b, name) == FieldText(a, name) + FieldText(b, name)
  {
    if a == [] {
      assert a + b == b;
    } else {
      assert (a + b)[1..] == a[1..] + b;
      FieldTextInOrder(a[1..], b, name);
    }
  }

  lemma {:induction false} ChildrenConcat(a: seq<Item>, b: seq<Item>, kind: Kind)
    ensures Children(a + b, kind) == Children(a, kind) + Children(b, kind)
    decreases a
  {
    if a == [] {
      assert a + b == b;
    } else {
      assert (a + b)[1..] == a[1..] + b;
      ChildrenConcat(a[1..], b, kind);
    }
  }

  /** The record of each child comes behind those of the children of its kind before it. */
  lemma ChildrenInOrder(items: seq<Item>, k: nat)
    requires k < |items| && items[k].Child?
    ensures var kind, before := items[k].e.kind, Children(items[..k], items[k].e.kind);
      |before| < |Children(items, kind)| && Children(items, kind)[|before|] == Denote(items[k].e)
  {
    hide Denote;
    var kind, rest := items[k].e.kind, items[k + 1..];
    assert items == items[..k] + ([items[k]] + rest);
    ChildrenConcat(items[..k], [items[k]] + rest, kind);
    assert ([items[k]] + rest)[1..] == rest;
    assert Children([items[k]] + rest, kind) == [Denote(items[k].e)] + Children(rest, kind);
  }

  /** Trackers hold artifacts, artifacts hold histories and messages, and histories hold messages. */
  lemma HoldsExactly(parent: Kind, child: Kind)
    ensures Holds(parent, child) <==>
            (parent, child) in {(Artifacts, Artifact), (Artifact, History), (Artifact, Message), (History, Message)}
  {
  }

  // ---------- feeding the events of a document rebuilds its record ----------

  /** r with the fields and children of items added to it. */
  function Extended(r: Record, items: seq<Item>): Record {
    Record(r.kind,
           map name | name in r.fields.Keys + FieldNames(items) ::
             (if name in r.fields then r.fields[name] else "") + FieldText(items, name),
           r.artifacts + Children(items, Artifact),
           r.messages + Children(items, Message),
           r.histories + Children(items, History))
  }

  lemma {:induction false} NoTextNothing(chunks: seq<Chunk>)
    requires !HasText(chunks)
    ensures Concat(chunks) == ""
  {
    if chunks != [] { NoTextNothing(chunks[1..]); }
  }

  lemma {:induction false} NoTextNoName(items: seq<Item>, name: string)
    requires name !in FieldNames(items)
    ensures FieldText(items, name) == ""
  {
    if items != [] {
      NoTextNoName(items[1..], name);
      if items[0].NamedField? && items[0].name == name { NoTextNothing(items[0].chunks); }
    }
  }

  /** The builder is between tags, with current and root as given. */
  ghost predicate Open(g: Grabber, current: seq<Record>, root: Option<Record>) {
    g.Grabber? && g.current == current && g.root == root && !g.inNamedField
  }

  /** r with some chunks of text added to a field. */
  function WithText(r: Record, name: string, chunks: seq<Chunk>): Record
    decreases chunks
  {
    if chunks == [] then r else WithText(WithChunk(r, name, chunks[0]), name, chunks[1..])
  }

  function WithChunk(r: Record, name: string, chunk: Chunk): Record {
    if chunk.Chars? then AddText(r, name, chunk.text) else r
  }

  lemma {:induction false} FeedChunks(g: Grabber, below: seq<Record>, r: Record, chunks: seq<Chunk>)
    requires g.Grabber? && g.current == below + [r]
    ensures g.inNamedField ==> Feed(g, Chunks(chunks)) == g.(current := below + [WithText(r, g.fieldName, chunks)])
    ensures !g.inNamedField ==> Feed(g, Chunks(chunks)) == g
    decreases chunks
  {
    if chunks != [] {
      var g' := OnEvent(g, ChunkEvent(chunks[0]));
      var r' := if g.inNamedField then WithChunk(r, g.fieldName, chunks[0]) else r;
      assert g' == g.(current := below + [r']);
      FeedChunks(g', below, r', chunks[1..]);
    }
  }

  lemma AddTextTwice(r: Record, name: string, a: string, b: string)
    ensures AddText(AddText(r, name, a), name, b) == AddText(r, name, a + b)
  {
    var was := if name in r.fields then r.fields[name] else "";
    assert (was + a) + b == was + (a + b);
  }

  lemma {:induction false} WithTextIs(r: Record, name: string, chunks: seq<Chunk>)
    ensures WithText(r, name, chunks) == if HasText(chunks) then AddText(r, name, Concat(chunks)) else r
    decreases chunks
  {
    hide AddText;
    if chunks != [] {
      var first, rest := chunks[0], chunks[1..];
      WithTextIs(WithChunk(r, name, first), name, rest);
      if first.Tagged? {
        assert "" + Concat(rest) == Concat(rest);
      } else if HasText(rest) {
        AddTextTwice(r, name, first.text, Concat(rest));
      } else {
        NoTextNothing(rest);
        assert first.text + "" == first.text;
      }
    }
  }

  // ---------- one item at a time ----------

  lemma ExtendedByNone(r: Record)
    ensures Extended(r, []) == r
  {
    var e := Extended(r, []);
    assert forall name | name in r.fields :: e.fields[name] == r.fields[name] + "" == r.fields[name];
    assert e.fields == r.fields;
  }

  lemma FieldsOfOne(item: Item)
    ensures FieldNames([item]) == if item.NamedField? && HasText(item.chunks) then {item.name} else {}
    ensures forall name: string :: FieldText([item], name) ==
                                   if item.NamedField? && item.name == name then Concat(item.chunks) else ""
  {
    assert [item][1..] == [];
    forall name: string
      ensures FieldText([item], name) == if item.NamedField? && item.name == name then Concat(item.chunks) else ""
    {
      if item.NamedField? && item.name == name { assert Concat(item.chunks) + "" == Concat(item.chunks); }
    }
  }

  lemma ChildrenOfOne(item: Item, kind: Kind)
    ensures Children([item], kind) == if item.Child? && item.e.kind == kind then [Denote(item.e)] else []
  {
    assert [item][1..] == [];
  }

  /** The fields of a record after those of one more field item. */
  lemma FieldsAfter(r: Record, name: string, chunks: seq<Chunk>)
    ensures var item := NamedField(name, chunks);
      Extended(r, [item]).fields == if HasText(chunks) then AddText(r, name, Concat(chunks)).fields else r.fields
  {
    hide FieldNames, FieldText, Children, Concat, HasText;
    var item := NamedField(name, chunks);
    FieldsOfOne(item);
    var e := Extended(r, [item]);
    forall n | n in r.fields && n != name ensures e.fields[n] == r.fields[n] {
      assert r.fields[n] + "" == r.fields[n];
    }
    if !HasText(chunks) {
      NoTextNothing(chunks);
      if name in r.fields { assert r.fields[name] + "" == r.fields[name]; }
    }
  }

  lemma ExtendedByField(r: Record, name: string, chunks: seq<Chunk>)
    ensures Extended(r, [NamedField(name, chunks)]) == WithText(r, name, chunks)
  {
    hide FieldNames, FieldText, Children, WithText, Concat, HasText;
    var item := NamedField(name, chunks);
    FieldsAfter(r, name, chunks);
    ChildrenOfOne(item, Artifact);
    ChildrenOfOne(item, Message);
    ChildrenOfOne(item, History);
    WithTextIs(r, name, chunks);
  }

  lemma ExtendedByChild(r: Record, child: Elem)
    requires Holds(r.kind, child.kind)
    ensures Extended(r, [Child(child)]) == Append(r, child.kind, Denote(child))
  {
    hide FieldNames, FieldText, Children, Denote;
    var item := Child(child);
    FieldsOfOne(item);
    ChildrenOfOne(item, Artifact);
    ChildrenOfOne(item, Message);
    ChildrenOfOne(item, History);
    var e := Extended(r, [item]);
    assert forall n | n in r.fields :: e.fields[n] == r.fields[n] + "" == r.fields[n];
    assert e.fields == r.fields;
  }

  lemma ExtendedByNoise(r: Record, item: Item)
    requires item.UnnamedField? || item.Noise? || item.Mark?
    ensures Extended(r, [item]) == r
  {
    hide FieldNames, FieldText, Children;
    FieldsOfOne(item);
    ChildrenOfOne(item, Artifact);
    ChildrenOfOne(item, Message);
    ChildrenOfOne(item, History);
    var e := Extended(r, [item]);
    assert forall n | n in r.fields :: e.fields[n] == r.fields[n] + "" == r.fields[n];
    assert e.fields == r.fields;
  }

  /** Fields of a list of items, split into its first item and the rest. */
  lemma FieldsSplit(items: seq<Item>)
    requires items != []
    ensures FieldNames(items) == FieldNames([items[0]]) + FieldNames(items[1..])
    ensures forall name: string :: FieldText(items, name) == FieldText([items[0]], name) + FieldText(items[1..], name)
  {
    FieldsOfOne(items[0]);
  }

  lemma ExtendedFields(r: Record, items: seq<Item>)
    requires items != []
    ensures Extended(Extended(r, [items[0]]), items[1..]).fields == Extended(r, items).fields
  {
    hide FieldNames, FieldText, Children;
    FieldsSplit(items);
    var one, rest := [items[0]], items[1..];
    var a, b := Extended(Extended(r, one), rest).fields, Extended(r, items).fields;
    assert a.Keys == b.Keys;
    forall name | name in b ensures a[name] == b[name] {
      var was := if name in r.fields then r.fields[name] else "";
      assert (was + FieldText(one, name)) + FieldText(rest, name) == was + (FieldText(one, name) + FieldText(rest, name));
      if name !in r.fields && name !in FieldNames(one) {
        NoTextNoName(one, name);
        assert "" + FieldText(rest, name) == FieldText(rest, name);
      }
    }
  }

  lemma ChildrenSplit(items: seq<Item>, kind: Kind)
    requires items != []
    ensures Children(items, kind) == Children([items[0]], kind) + Children(items[1..], kind)
  {
    ChildrenOfOne(items[0], kind);
  }

  lemma ExtendedStep(r: Record, items: seq<Item>)
    requires items != []
    ensures Extended(Extended(r, [items[0]]), items[1..]) == Extended(r, items)
  {
    hide FieldNames, FieldText, Children;
    ExtendedFields(r, items);
    ChildrenSplit(items, Artifact);
    ChildrenSplit(items, Message);
    ChildrenSplit(items, History);
  }

  lemma ExtendedFromEmpty(e: Elem)
    ensures Extended(Empty(e.kind), e.items) == Denote(e)
  {
    hide FieldNames, FieldText, Children;
    var a, b := Extended(Empty(e.kind), e.items), Denote(e);
    forall name | name in b.fields ensures a.fields[name] == b.fields[name] {
      assert "" + FieldText(e.items, name) == FieldText(e.items, name);
    }
    assert a.fields == b.fields;
  }

  // ---------- the main results ----------

  lemma FeedOne(g: Grabber, e: Event)
    ensures Feed(g, [e]) == OnEvent(g, e)
  {
    assert [e][1..] == [];
  }

  lemma FeedBracket(g: Grabber, first: Event, middle: seq<Event>, last: Event)
    ensures Feed(g, [first] + middle + [last]) == OnEvent(Feed(OnEvent(g, first), middle), last)
  {
    hide OnEvent;
    FeedConcat(g, [first] + middle, [last]);
    FeedConcat(g, [first], middle);
    FeedOne(g, first);
    FeedOne(Feed(OnEvent(g, first), middle), last);
  }

  lemma FeedField(g: Grabber, below: seq<Record>, r: Record, name: Option<string>, chunks: seq<Chunk>, root: Option<Record>)
    requires Open(g, below + [r], root)
    ensures Open(Feed(g, [Start(Field, name)] + Chunks(chunks) + [End(Field)]),
                 below + [if name.Some? then WithText(r, name.value, chunks) else r], root)
  {
    hide Feed, Chunks, WithText;
    FeedBracket(g, Start(Field, name), Chunks(chunks), End(Field));
    FeedChunks(OnEvent(g, Start(Field, name)), below, r, chunks);
  }

  lemma {:induction false} FeedItem(g: Grabber, below: seq<Record>, r: Record, item: Item, root: Option<Record>)
    requires Open(g, below + [r], root)
    requires item.Child? ==> Holds(r.kind, item.e.kind) && Nested(item.e)
    ensures Open(Feed(g, EventsOf(item)), below + [Extended(r, [item])], root)
    decreases item, 2
  {
    hide Feed, Chunks, Extended, WithText, Denote, Events;
    match item
    case NamedField(name, chunks) =>
      FeedField(g, below, r, Some(name), chunks, root);
      ExtendedByField(r, name, chunks);
    case UnnamedField(chunks) =>
      FeedField(g, below, r, None, chunks, root);
      ExtendedByNoise(r, item);
    case Child(e) =>
      FeedElem(g, below, r, e, root);
      ExtendedByChild(r, e);
    case Noise(text) =>
      FeedOne(g, Text(text));
      ExtendedByNoise(r, item);
    case Mark(other, opening) =>
      FeedOne(g, UnknownTag(other, opening));
      ExtendedByNoise(r, item);
  }

  lemma {:induction false} FeedItems(g: Grabber, below: seq<Record>, r: Record, items: seq<Item>, root: Option<Record>)
    requires Open(g, below + [r], root) && NestedAll(r.kind, items)
    ensures Open(Feed(g, EventsOfAll(items)), below + [Extended(r, items)], root)
    decreases items, 0
  {
    if items == [] {
      ExtendedByNone(r);
    } else {
      hide Feed, EventsOf, Extended, Nested, Denote;
      FeedConcat(g, EventsOf(items[0]), EventsOfAll(items[1..]));
      FeedItem(g, below, r, items[0], root);
      ExtendedStep(r, items);
      KindKept(r, [items[0]]);
      FeedItems(Feed(g, EventsOf(items[0])), below, Extended(r, [items[0]]), items[1..], root);
    }
  }

  lemma KindKept(r: Record, items: seq<Item>)
    ensures Extended(r, items).kind == r.kind
  {
  }

  /** Feeding an element's events inside a record that has a list for it appends the record it stands for. */
  lemma {:induction false} FeedElem(g: Grabber, below: seq<Record>, r: Record, e: Elem, root: Option<Record>)
    requires Open(g, below + [r], root) && Holds(r.kind, e.kind) && Nested(e)
    ensures Open(Feed(g, Events(e)), below + [Append(r, e.kind, Denote(e))], root)
    decreases e, 1
  {
    hide Feed, EventsOfAll, Extended, Denote, NestedAll;
    FeedBracket(g, Start(Rec(e.kind), None), EventsOfAll(e.items), End(Rec(e.kind)));
    var g1 := OnEvent(g, Start(Rec(e.kind), None));
    FeedItems(g1, below + [r], Empty(e.kind), e.items, root);
    ExtendedFromEmpty(e);
    var g2 := Feed(g1, EventsOfAll(e.items));
    assert g2.current == below + [r] + [Denote(e)];
    assert g2.current[..|below|] == below && g2.current[|below|] == r;
    DenoteKind(e);
  }

  lemma DenoteKind(e: Elem)
    ensures Denote(e).kind == e.kind
  {
  }

  /** Feeding a whole document to a fresh builder leaves exactly the record it stands for. */
  lemma FeedDocument(doc: Elem)
    requires doc.kind == Artifacts && Nested(doc)
    ensures Open(Feed(INITIAL, Events(doc)), [], Some(Denote(doc)))
  {
    hide Feed, EventsOfAll, Extended, Denote, NestedAll;
    FeedBracket(INITIAL, Start(Rec(Artifacts), None), EventsOfAll(doc.items), End(Rec(Artifacts)));
    var g1 := OnEvent(INITIAL, Start(Rec(Artifacts), None));
    assert g1.current == [] + [Empty(Artifacts)];
    FeedItems(g1, [], Empty(Artifacts), doc.items, None);
    ExtendedFromEmpty(doc);
  }

  /** A name given by one field item only keeps just that item's text, however it was cut into chunks. */
  lemma {:induction false} SingleFieldText(items: seq<Item>, k: nat)
    requires k < |items| && items[k].NamedField?
    requires forall i | 0 <= i < |items| && i != k :: !(items[i].NamedField? && items[i].name == items[k].name)
    ensures FieldText(items, items[k].name) == Concat(items[k].chunks)
    ensures items[k].name in FieldNames(items) <==> HasText(items[k].chunks)
  {
    var name := items[k].name;
    if k == 0 {
      OtherNames(items[1..], name);
      assert Concat(items[0].chunks) + "" == Concat(items[0].chunks);
    } else {
      assert items[1..][k - 1] == items[k];
      SingleFieldText(items[1..], k - 1);
      assert "" + FieldText(items[1..], name) == FieldText(items[1..], name);
    }
  }

  lemma {:induction false} OtherNames(items: seq<Item>, name: string)
    requires forall i | 0 <= i < |items| :: !(items[i].NamedField? && items[i].name == name)
    ensures FieldText(items, name) == "" && name !in FieldNames(items)
  {
    if items != [] { OtherNames(items[1..], name); }
  }

  // ---------- searching ----------

  /** contains: messages, then histories, then the record's own fields; a tracker's artifacts are not searched. */
  predicate Matches(r: Record, pattern: string -> bool)
    decreases r, 1
  {
    || MatchesAny(r.messages, pattern)
    || MatchesAny(r.histories, pattern)
    || exists name | name in r.fields :: pattern(r.fields[name])
  }

  predicate MatchesAny(rs: seq<Record>, pattern: string -> bool)
    decreases rs, 0
  {
    rs != [] && (Matches(rs[0], pattern) || MatchesAny(rs[1..], pattern))
  }

  /** Some text an artifact, history or message element was given, itself or further in, matches. */
  ghost predicate TextMatches(e: Elem, pattern: string -> bool)
    decreases e, 1
  {
    || OwnTextMatches(e.items, pattern)
    || AnyTextMatches(e.items, pattern)
  }

  ghost predicate OwnTextMatches(items: seq<Item>, pattern: string -> bool) {
    exists name | name in FieldNames(items) :: pattern(FieldText(items, name))
  }

  ghost predicate AnyTextMatches(items: seq<Item>, pattern: string -> bool)
    decreases items, 0
  {
    items != [] && (ItemTextMatches(items[0], pattern) || AnyTextMatches(items[1..], pattern))
  }

  ghost predicate ItemTextMatches(item: Item, pattern: string -> bool)
    decreases item, 2
  {
    item.Child? && TextMatches(item.e, pattern)
  }

  ghost predicate ChildMatchesAt(items: seq<Item>, k: nat, pattern: string -> bool) {
    k < |items| && items[k].Child? && TextMatches(items[k].e, pattern)
  }

  lemma {:induction false} AnyTextMatchesExactly(items: seq<Item>, pattern: string -> bool)
    ensures AnyTextMatches(items, pattern) <==> exists k: nat :: ChildMatchesAt(items, k, pattern)
  {
    hide TextMatches;
    if items != [] {
      var rest := items[1..];
      AnyTextMatchesExactly(rest, pattern);
      if k: nat :| ChildMatchesAt(rest, k, pattern) {
        assert ChildMatchesAt(items, k + 1, pattern);
      }
      if k: nat :| ChildMatchesAt(items, k, pattern) {
        if k == 0 { assert ItemTextMatches(items[0], pattern); } else { assert ChildMatchesAt(rest, k - 1, pattern); }
      }
      if ItemTextMatches(items[0], pattern) { assert ChildMatchesAt(items, 0, pattern); }
    }
  }

  /** An element's text matches exactly if a field of its own or a child's text does. */
  lemma TextMatchesExactly(e: Elem, pattern: string -> bool)
    ensures TextMatches(e, pattern) <==>
            || OwnTextMatches(e.items, pattern)
            || (exists k: nat :: ChildMatchesAt(e.items, k, pattern))
  {
    hide OwnTextMatches, ChildMatchesAt;
    AnyTextMatchesExactly(e.items, pattern);
  }

  lemma {:induction false} MatchesAnyConcat(a: seq<Record>, b: seq<Record>, pattern: string -> bool)
    ensures MatchesAny(a + b, pattern) <==> MatchesAny(a, pattern) || MatchesAny(b, pattern)
    decreases a
  {
    if a == [] {
      assert a + b == b;
    } else {
      assert (a + b)[1..] == a[1..] + b;
      MatchesAnyConcat(a[1..], b, pattern);
    }
  }

  /** Searching a rebuilt record other than the whole tracker finds a match exactly if the document's text has one. */
  lemma {:induction false} SearchIsComplete(e: Elem, pattern: string -> bool)
    requires Nested(e) && e.kind != Artifacts
    ensures Matches(Denote(e), pattern) <==> TextMatches(e, pattern)
    decreases e, 1
  {
    SearchItems(e.kind, e.items, pattern);
    var r := Denote(e);
    forall name | name in r.fields ensures r.fields[name] == FieldText(e.items, name) && name in FieldNames(e.items) {}
  }

  lemma {:induction false} SearchItems(kind: Kind, items: seq<Item>, pattern: string -> bool)
    requires NestedAll(kind, items) && kind != Artifacts
    ensures MatchesAny(Children(items, Message), pattern) || MatchesAny(Children(items, History), pattern)
            <==> AnyTextMatches(items, pattern)
    decreases items, 0
  {
    if items != [] {
      hide Denote, TextMatches, Matches;
      SearchItems(kind, items[1..], pattern);
      SearchItem(kind, items[0], pattern);
      MatchesAnyConcat(ChildrenIn(items[0], Message), Children(items[1..], Message), pattern);
      MatchesAnyConcat(ChildrenIn(items[0], History), Children(items[1..], History), pattern);
    }
  }

  lemma {:induction false} SearchItem(kind: Kind, item: Item, pattern: string -> bool)
    requires NestedItem(kind, item) && kind != Artifacts
    ensures MatchesAny(ChildrenIn(item, Message), pattern) || MatchesAny(ChildrenIn(item, History), pattern)
            <==> ItemTextMatches(item, pattern)
    decreases item, 2
  {
    if item.Child? {
      hide Denote, TextMatches, Matches;
      SearchIsComplete(item.e, pattern);
      var one := [Denote(item.e)];
      assert one[1..] == [];
      assert MatchesAny(one, pattern) == Matches(one[0], pattern);
    }
  }
}
