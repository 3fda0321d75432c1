/**
 The record builder in memory: a stack of mutable record objects, the innermost open element on top.

 Every handler is held against the state machine of Records; the objects on the stack do not share parts.
 */
module RecordBuilder {
  import opened Wrappers
  import opened Records

  class Node {
    const kind: Kind
    var fields: map<string, string>
    var artifacts: seq<Node>
    var messages: seq<Node>
    var histories: seq<Node>
    ghost var repr: set<Node>
    ghost var view: Record

    /** view is the record this object and the objects in its lists make up. */
    ghost predicate Valid()
      reads this, repr
      decreases repr, 1
    {
      && this in repr
      && view.kind == kind && view.fields == fields
      && Shows(artifacts, view.artifacts) && Shows(messages, view.messages) && Shows(histories, view.histories)
    }

    ghost predicate Shows(nodes: seq<Node>, records: seq<Record>)
      requires this in repr
      reads this, repr
      decreases repr, 0
    {
      && |nodes| == |records|
      && forall i | 0 <= i < |nodes| ::
           && nodes[i] in repr && nodes[i].repr <= repr && this !in nodes[i].repr
           && nodes[i].Valid() && nodes[i].view == records[i]
    }

    constructor (k: Kind)
      ensures Valid() && fresh(repr) && view == Empty(k)
    {
      kind := k;
      fields := map[];
      artifacts, messages, histories := [], [], [];
      repr := {this};
      view := Empty(k);
    }

    /** Fielded.add. */
    method Add(name: string, content: string)
      requires Valid()
      modifies this
      ensures Valid() && repr == old(repr) && view == AddText(old(view), name, content)
    {
      if name in fields {
        fields := fields[name := fields[name] + content];
      } else {
        fields := fields[name := content];
        assert "" + content == content;
      }
      view := AddText(view, name, content);
    }

    /** Appending a closed record to the list for its kind. */
    method AppendChild(k: Kind, child: Node)
      requires Valid() && child.Valid() && repr !! child.repr && Holds(kind, k)
      modifies this
      ensures Valid() && repr == old(repr) + child.repr
      ensures view == Append(old(view), k, old(child.view))
    {
      repr := repr + child.repr;
      view := Append(view, k, child.view);
      match k {
        case Artifact => artifacts := artifacts + [child];
        case History => histories := histories + [child];
        case Message => messages := messages + [child];
      }
    }

    /** contains. */
    method Contains(pattern: string -> bool) returns (b: bool)
      requires Valid()
      ensures b == Matches(view, pattern)
      decreases repr, 1
    {
      b := AnyContains(messages, view.messages, pattern);
      if b { return; }
      b := AnyContains(histories, view.histories, pattern);
      if b { return; }
      var keys := fields.Keys;
      while keys != {}
        invariant keys <= fields.Keys
        invariant forall name | name in fields && name !in keys :: !pattern(fields[name])
        decreases keys
      {
        var key :| key in keys;
        if pattern(fields[key]) { return true; }
        keys := keys - {key};
      }
      b := false;
    }

    method AnyContains(nodes: seq<Node>, ghost records: seq<Record>, pattern: string -> bool) returns (b: bool)
      requires this in repr && Shows(nodes, records)
      ensures b == MatchesAny(records, pattern)
      decreases repr, 0
    {
      var i := 0;
      while i < |nodes|
        invariant 0 <= i <= |nodes|
        invariant MatchesAny(records, pattern) == MatchesAny(records[i..], pattern)
      {
        var found := nodes[i].Contains(pattern);
        assert records[i..][1..] == records[i + 1..];
        if found { return true; }
        i := i + 1;
      }
      b := false;
    }
  }

  class Builder {
    var current: seq<Node>
    var artifacts: Node?
    var inNamedField: bool
    var fieldName: string

    ghost predicate Valid()
      reads this, current, artifacts, Objects()
    {
      && (forall i | 0 <= i < |current| :: current[i].Valid())
      && (forall i, j | 0 <= i < j < |current| :: current[i].repr !! current[j].repr)
      && (artifacts != null ==> artifacts.Valid() && forall i | 0 <= i < |current| :: current[i].repr !! artifacts.repr)
    }

    /** Every object the builder has a hold of. */
    ghost function Objects(): set<Node>
      reads this, current, artifacts
    {
      (set i, n | 0 <= i < |current| && n in current[i].repr :: n) + (if artifacts == null then {} else artifacts.repr)
    }

    ghost function State(): Grabber
      reads this, current, artifacts
    {
      Grabber(seq(|current|, i requires 0 <= i < |current| reads this, current => current[i].view),
              if artifacts == null then None else Some(artifacts.view), inNamedField, fieldName)
    }

    constructor ()
      ensures Valid() && State() == INITIAL && Objects() == {}
    {
      current := [];
      artifacts := null;
      inNamedField := false;
      fieldName := "";
    }

    /** startElement. */
    method StartElement(tag: Tag, name: Option<string>)
      requires Valid()
      modifies this
      ensures Valid() && State() == OnStart(old(State()), tag, name)
      ensures fresh(Objects() - old(Objects()))
    {
      match tag {
        case Rec(k) =>
          var node := new Node(k);
          current := current + [node];
        case Field =>
          if |current| > 0 && name.Some? {
            inNamedField := true;
            fieldName := name.value;
          }
        case Unknown(_) =>
      }
    }

    /** characters; false is the exception for text in a field of no record. */
    method Characters(content: string) returns (ok: bool)
      requires Valid()
      modifies this, current
      ensures ok == OnText(old(State()), content).Grabber?
      ensures ok ==> Valid() && State() == OnText(old(State()), content) && Objects() == old(Objects())
    {
      ok := true;
      if inNamedField {
        hide AddText;
        ghost var before := State();
        var n := |current|;
        if n == 0 { return false; }
        var top := current[n - 1];
        assert top.view == before.current[n - 1];
        top.Add(fieldName, content);
        assert State().current == before.current[..n - 1] + [AddText(before.current[n - 1], fieldName, content)];
      }
    }

    /** endElement; false is the exception for a record without an open parent that has a list for it. */
    method EndElement(tag: Tag) returns (ok: bool)
      requires Valid()
      modifies this, current
      ensures ok == OnEnd(old(State()), tag).Grabber?
      ensures ok ==> Valid() && State() == OnEnd(old(State()), tag) && Objects() <= old(Objects())
    {
      ok := true;
      match tag {
        case Rec(k) =>
          if |current| == 0 { return false; }
          if k == Artifacts {
            artifacts := current[|current| - 1];
            current := current[..|current| - 1];
          } else {
            ok := Close(k);
          }
        case Field =>
          inNamedField := false;
        case Unknown(_) =>
      }
    }

    /** Moves the innermost open record into its parent's list. */
    method Close(k: Kind) returns (ok: bool)
      requires Valid() && |current| > 0 && k != Artifacts
      modifies this`current, current
      ensures ok == OnEnd(old(State()), Rec(k)).Grabber?
      ensures ok ==> Valid() && State() == OnEnd(old(State()), Rec(k)) && Objects() <= old(Objects())
    {
      hide Append, Holds;
      ghost var before := State();
      var n := |current|;
      var child := current[n - 1];
      current := current[..n - 1];
      if n == 1 { return false; }
      var parent := current[n - 2];
      assert parent.view == before.current[n - 2] && child.view == before.current[n - 1];
      assert parent.kind == parent.view.kind;
      if !Holds(parent.kind, k) { return false; }
      parent.AppendChild(k, child);
      assert State().current == before.current[..n - 2] + [Append(before.current[n - 2], k, before.current[n - 1])];
      ok := true;
    }

    /** The handler of one event; false when it ends in an exception. */
    method Handle(e: Event) returns (ok: bool)
      requires Valid()
      modifies this, current
      ensures ok == OnEvent(old(State()), e).Grabber?
      ensures ok ==> Valid() && State() == OnEvent(old(State()), e) && fresh(Objects() - old(Objects()))
    {
      hide OnStart, OnEnd, OnText;
      match e {
        case Start(tag, name) =>
          StartNeverFails(State(), tag, name);
          StartElement(tag, name);
          ok := true;
        case End(tag) => ok := EndElement(tag);
        case Text(content) => ok := Characters(content);
      }
    }

    static lemma StartNeverFails(g: Grabber, tag: Tag, name: Option<string>)
      requires g.Grabber?
      ensures OnStart(g, tag, name).Grabber?
    {
    }

    /** The parser calls the handlers for one event after the other, until one of them fails. */
    method HandleAll(events: seq<Event>) returns (ok: bool)
      requires Valid()
      modifies this, Objects()
      ensures ok == Feed(old(State()), events).Grabber?
      ensures ok ==> Valid() && State() == Feed(old(State()), events) && fresh(Objects() - old(Objects()))
    {
      hide OnEvent, Feed;
      var i := 0;
      while i < |events|
        invariant 0 <= i <= |events|
        invariant Valid() && fresh(Objects() - old(Objects()))
        invariant Feed(State(), events[i..]) == Feed(old(State()), events)
      {
        ghost var before := State();
        FeedStep(before, events[i..]);
        assert events[i..][1..] == events[i + 1..];
        InObjects();
        ok := Handle(events[i]);
        if !ok {
          NoRecovery(OnEvent(before, events[i]), events[i + 1..]);
          return;
        }
        i := i + 1;
      }
      assert events[i..] == [];
      FeedNothing(State());
      ok := true;
    }

    lemma InObjects()
      requires Valid()
      ensures forall i | 0 <= i < |current| :: current[i] in Objects()
    {
    }

    static lemma FeedStep(g: Grabber, events: seq<Event>)
      requires events != []
      ensures Feed(g, events) == Feed(OnEvent(g, events[0]), events[1..])
    {
    }

    static lemma FeedNothing(g: Grabber)
      ensures Feed(g, []) == g
    {
    }

    /** After an exception the parse is over. */
    static lemma {:induction false} NoRecovery(g: Grabber, events: seq<Event>)
      requires g.Crashed?
      ensures Feed(g, events).Crashed?
      decreases events
    {
      if events != [] { NoRecovery(OnEvent(g, events[0]), events[1..]); }
    }
  }

  /** Parsing the events of a well-nested document builds, object by object, the record the document stands for. */
  method Grab(events: seq<Event>, ghost doc: Elem) returns (root: Node)
    requires events == Events(doc) && doc.kind == Artifacts && Nested(doc)
    ensures root.Valid() && root.view == Denote(doc) && fresh(root.repr)
  {
    hide Feed, Events, Denote, Nested;
    FeedDocument(doc);
    var builder := new Builder();
    var _ := builder.HandleAll(events);
    root := builder.artifacts;
  }

  /** get_artifacts: the list that endDocument takes out of the root. */
  method GetArtifacts(events: seq<Event>, ghost doc: Elem) returns (list: seq<Node>)
    requires events == Events(doc) && doc.kind == Artifacts && Nested(doc)
    ensures |list| == |Children(doc.items, Artifact)|
    ensures forall i | 0 <= i < |list| :: list[i].Valid() && list[i].view == Children(doc.items, Artifact)[i]
  {
    hide Events, Nested, Children;
    var root := Grab(events, doc);
    list := root.artifacts;
  }
}
