/**
 Filling in the @name@ placeholders of a template line: one search and replace pass for every key.
 */
module Template {
  import opened Wrappers

  // ---------- search and replace ----------

  predicate OccursAt(s: string, key: string, i: nat) {
    i + |key| <= |s| && s[i..i + |key|] == key
  }

  /** The first place from start on where key occurs in s. */
  function Search(key: string, s: string, start: nat): (r: Option<nat>)
    requires start <= |s|
    ensures r.Some? ==> start <= r.value && r.value + |key| <= |s| && OccursAt(s, key, r.value)
    decreases |s| - start
  {
    if OccursAt(s, key, start) then Some(start)
    else if start == |s| then None
    else Search(key, s, start + 1)
  }

  /** Before the place found, or anywhere if none is, the key does not occur. */
  lemma {:induction false} SearchFindsFirst(key: string, s: string, start: nat, i: nat)
    requires start <= |s| && start <= i
    requires Search(key, s, start).Some? ==> i < Search(key, s, start).value
    ensures !OccursAt(s, key, i)
    decreases |s| - start
  {
    if start < i && start < |s| { SearchFindsFirst(key, s, start + 1, i); }
  }

  /** s with every occurrence of key replaced, left to right and without overlaps. */
  function Replace(s: string, key: string, new': string): string
    requires key != ""
    decreases |s|
  {
    match Search(key, s, 0)
    case None => s
    case Some(k) => Splice(s[..k], new', Replace(s[k + |key|..], key, new'))
  }

  function Splice(before: string, middle: string, after: string): string {
    before + middle + after
  }

  lemma OccursInRest(s: string, key: string, m: nat, i: nat)
    requires m <= |s|
    ensures OccursAt(s, key, m + i) <==> OccursAt(s[m..], key, i)
  {
    if m + i + |key| <= |s| {
      assert s[m + i..m + i + |key|] == s[m..][i..i + |key|];
    }
  }

  /** Searching on from m is searching the rest of the string. */
  lemma {:induction false} SearchInRest(key: string, s: string, m: nat, i: nat)
    requires m + i <= |s|
    ensures Search(key, s, m + i) == match Search(key, s[m..], i) case None => None case Some(k) => Some(m + k)
    decreases |s| - i
  {
    hide OccursAt;
    OccursInRest(s, key, m, i);
    if !OccursAt(s, key, m + i) && m + i < |s| {
      SearchInRest(key, s, m, i + 1);
    }
  }

  lemma {:induction false} SearchSkips(key: string, s: string, i: nat, m: nat)
    requires i <= m <= |s| && forall j: nat :: i <= j < m ==> !OccursAt(s, key, j)
    ensures Search(key, s, i) == Search(key, s, m)
    decreases m - i
  {
    if i < m { SearchSkips(key, s, i + 1, m); }
  }

  lemma ReplaceStep(s: string, key: string, new': string)
    requires key != ""
    ensures Replace(s, key, new') ==
            match Search(key, s, 0)
            case None => s
            case Some(k) => Splice(s[..k], new', Replace(s[k + |key|..], key, new'))
  {
  }

  lemma SliceOfRest(s: string, m: nat, k: nat, n: nat)
    requires m + k + n <= |s|
    ensures s[m..][..k] == s[m..m + k] && s[m..][k + n..] == s[m + k + n..]
  {
  }

  lemma ReplaceFromSome(s: string, key: string, new': string, m: nat, k: nat)
    requires key != "" && m <= |s| && Search(key, s, m) == Some(k)
    ensures m <= k && k + |key| <= |s|
    ensures Replace(s[m..], key, new') == Splice(s[m..k], new', Replace(s[k + |key|..], key, new'))
  {
    hide Search, Replace, OccursAt, Splice;
    SearchInRest(key, s, m, 0);
    ReplaceStep(s[m..], key, new');
    SliceOfRest(s, m, k - m, |key|);
  }

  lemma ReplaceFromNone(s: string, key: string, new': string, m: nat)
    requires key != "" && m <= |s| && Search(key, s, m) == None
    ensures Replace(s[m..], key, new') == s[m..]
  {
    hide Search, Replace, OccursAt, Splice;
    SearchInRest(key, s, m, 0);
    ReplaceStep(s[m..], key, new');
  }

  /** Replacing in the rest of s, by what a search of s from there on finds. */
  lemma ReplaceFrom(s: string, key: string, new': string, m: nat)
    requires key != "" && m <= |s|
    ensures Replace(s[m..], key, new') ==
            match Search(key, s, m)
            case None => s[m..]
            case Some(k) => Splice(s[m..k], new', Replace(s[k + |key|..], key, new'))
  {
    hide Search, Replace, OccursAt, Splice;
    match Search(key, s, m)
    case None => ReplaceFromNone(s, key, new', m);
    case Some(k) => ReplaceFromSome(s, key, new', m, k);
  }

  /** Text in which no occurrence begins is copied. */
  lemma SkipPrefix(s: string, key: string, new': string, m: nat)
    requires key != "" && m <= |s|
    requires forall i: nat :: i < m ==> !OccursAt(s, key, i)
    ensures Replace(s, key, new') == s[..m] + Replace(s[m..], key, new')
  {
    hide Search, Replace, OccursAt;
    SearchSkips(key, s, 0, m);
    ReplaceFrom(s, key, new', 0);
    ReplaceFrom(s, key, new', m);
    assert s[0..] == s;
    match Search(key, s, m)
    case None => assert s == s[..m] + s[m..];
    case Some(k) => assert s[0..k] == s[..m] + s[m..k];
  }

  /** Text in which no occurrence begins stays as it is. */
  lemma SkipAll(s: string, key: string, new': string)
    requires key != "" && forall i: nat :: i < |s| ==> !OccursAt(s, key, i)
    ensures Replace(s, key, new') == s
  {
    hide Search, OccursAt;
    SearchSkips(key, s, 0, |s|);
    ReplaceFrom(s, key, new', |s|);
    SkipPrefix(s, key, new', |s|);
    assert s[..|s|] == s && s[|s|..] == "";
    EmptyHasNoKey(key, new');
  }

  lemma EmptyHasNoKey(key: string, new': string)
    requires key != ""
    ensures Replace("", key, new') == ""
  {
  }

  /** An occurrence at the front is replaced first. */
  lemma ReplaceFront(key: string, rest: string, new': string)
    requires key != ""
    ensures Replace(key + rest, key, new') == new' + Replace(rest, key, new')
  {
    var s := key + rest;
    assert s[0..|key|] == key && s[|key|..] == rest;
    assert OccursAt(s, key, 0);
    hide Replace;
    ReplaceFrom(s, key, new', 0);
    assert s[0..] == s && s[0..0] + new' == new';
  }

  /** replace-substring: the loop as written, with its two cursors. */
  method ReplaceSubstring(inString: string, key: string, new': string) returns (result: string)
    requires key != ""
    ensures result == Replace(inString, key, new')
  {
    hide Search, Replace;
    result := "";
    var begin := 0;
    var end := Search(key, inString, 0);
    assert inString[0..] == inString;
    while begin < |inString|
      invariant 0 <= begin <= |inString|
      invariant end == Search(key, inString, begin)
      invariant result + Replace(inString[begin..], key, new') == Replace(inString, key, new')
      decreases |inString| - begin
    {
      ReplaceFrom(inString, key, new', begin);
      if end.Some? {
        result := result + inString[begin..end.value] + new';
        begin := end.value + |key|;
      } else {
        result := result + inString[begin..];
        begin := |inString|;
        EmptyHasNoKey(key, new');
        assert inString[begin..] == "";
      }
      end := Search(key, inString, begin);
    }
    EmptyHasNoKey(key, new');
    assert inString[begin..] == "";
  }

  datatype Binding = Binding(name: string, value: string)

  function Key(name: string): (k: string)
    ensures k != ""
  {
    "@" + name + "@"
  }

  /** The passes of process-file over one line, one for each substitution in list order. */
  function ReplaceAll(line: string, subs: seq<Binding>): string
    decreases subs
  {
    if subs == [] then line else ReplaceAll(Replace(line, Key(subs[0].name), subs[0].value), subs[1..])
  }

  /** A list of substitutions in two parts: the passes of the first part, then those of the second. */
  lemma {:induction false} ReplaceAllInOrder(line: string, a: seq<Binding>, b: seq<Binding>)
    ensures ReplaceAll(line, a + b) == ReplaceAll(ReplaceAll(line, a), b)
    decreases a
  {
    hide Replace;
    if a == [] {
      assert a + b == b;
    } else {
      assert (a + b)[1..] == a[1..] + b;
      ReplaceAllInOrder(Replace(line, Key(a[0].name), a[0].value), a[1..], b);
    }
  }

  lemma OnePass(s: string, b: Binding)
    ensures ReplaceAll(s, [b]) == Replace(s, Key(b.name), b.value)
  {
    assert [b][1..] == [];
  }

  method ProcessLine(in': string, subs: seq<Binding>) returns (line: string)
    ensures line == ReplaceAll(in', subs)
  {
    line := in';
    var i := 0;
    while i < |subs|
      invariant 0 <= i <= |subs|
      invariant ReplaceAll(line, subs[i..]) == ReplaceAll(in', subs)
    {
      assert subs[i..][1..] == subs[i + 1..];
      line := ReplaceSubstring(line, Key(subs[i].name), subs[i].value);
      i := i + 1;
    }
  }

  // ---------- lines as text and placeholders ----------

  /** A line is text and placeholders; an '@' left without a partner comes last, with text behind it. */
  datatype Line = End(text: string) | Lone(text: string, tail: string) | Slot(text: string, name: string, rest: Line)

  predicate Clean(s: string) {
    '@' !in s
  }

  function Render(l: Line): string {
    match l
    case End(t) => t
    case Lone(t, u) => t + "@" + u
    case Slot(t, n, rest) => t + Key(n) + Render(rest)
  }

  predicate WellFormed(l: Line) {
    Clean(l.text) && (l.Lone? ==> Clean(l.tail)) && (l.Slot? ==> Clean(l.name) && WellFormed(l.rest))
  }

  function FirstAt(s: string): (i: nat)
    ensures i <= |s| && Clean(s[..i]) && (i < |s| ==> s[i] == '@')
  {
    if s == "" || s[0] == '@' then 0
    else
      var i := 1 + FirstAt(s[1..]);
      assert s[..i] == [s[0]] + s[1..][..i - 1];
      i
  }

  /** Taking a line apart: each '@' opens a placeholder that the next one closes. */
  function Parse(s: string): Line
    decreases |s|
  {
    var i := FirstAt(s);
    if i == |s| then End(s)
    else
      var r := s[i + 1..];
      var j := FirstAt(r);
      if j == |r| then Lone(s[..i], r) else Slot(s[..i], r[..j], Parse(r[j + 1..]))
  }

  lemma {:induction false} FirstAtIs(a: string, b: string)
    requires Clean(a)
    ensures FirstAt(a) == |a| && FirstAt(a + "@" + b) == |a|
    ensures (a + "@" + b)[..|a|] == a
  {
    var s := a + "@" + b;
    if a == "" {
      assert s[0] == '@';
    } else {
      assert a == [a[0]] + a[1..] && s[0] == a[0] != '@';
      assert s[1..] == a[1..] + "@" + b;
      FirstAtIs(a[1..], b);
    }
  }

  /** One step of parsing a text that holds an '@'. */
  lemma ParseStep(t: string, n: string, r: string)
    requires Clean(t) && Clean(n)
    ensures Parse(t + Key(n) + r) == Slot(t, n, Parse(r))
  {
    var s, u := t + Key(n) + r, n + "@" + r;
    assert s == t + "@" + u;
    FirstAtIs(t, u);
    FirstAtIs(n, r);
    assert s[|t| + 1..] == u && u[|n| + 1..] == r;
  }

  lemma {:induction false} RenderThenParse(l: Line)
    requires WellFormed(l)
    ensures Parse(Render(l)) == l
  {
    match l
    case End(t) => FirstAtIs(t, "");
    case Lone(t, u) =>
      FirstAtIs(t, u);
      FirstAtIs(u, "");
      assert (t + "@" + u)[|t| + 1..] == u;
    case Slot(t, n, rest) =>
      RenderThenParse(rest);
      ParseStep(t, n, Render(rest));
  }

  lemma CutTwice(s: string, i: nat, j: nat)
    requires i < |s| && s[i] == '@' && i + 1 + j < |s| && s[i + 1..][j] == '@'
    ensures s == s[..i] + Key(s[i + 1..][..j]) + s[i + 1..][j + 1..]
  {
    var r := s[i + 1..];
    assert r == r[..j] + "@" + r[j + 1..];
    assert s == s[..i] + "@" + r;
  }

  lemma {:induction false} ParseThenRender(s: string)
    ensures WellFormed(Parse(s)) && Render(Parse(s)) == s
    decreases |s|
  {
    hide Key, FirstAt;
    var i := FirstAt(s);
    if i == |s| {
      assert s[..|s|] == s;
    } else {
      var r := s[i + 1..];
      var j := FirstAt(r);
      if j == |r| {
        assert Parse(s) == Lone(s[..i], r);
        assert r[..|r|] == r && s == s[..i] + "@" + r;
      } else {
        assert Parse(s) == Slot(s[..i], r[..j], Parse(r[j + 1..]));
        hide Parse;
        CutTwice(s, i, j);
        ParseThenRender(r[j + 1..]);
      }
    }
  }

  // ---------- substitution on lines ----------

  function Before(s: string, l: Line): (r: Line)
    ensures Render(r) == s + Render(l)
  {
    match l
    case End(t) => End(s + t)
    case Lone(t, u) =>
      assert (s + t) + "@" + u == s + (t + "@" + u);
      Lone(s + t, u)
    case Slot(t, n, rest) =>
      assert (s + t) + Key(n) + Render(rest) == s + (t + Key(n) + Render(rest));
      Slot(s + t, n, rest)
  }

  /** One key's placeholders filled in. */
  function Fill(l: Line, name: string, value: string): Line {
    match l
    case End(_) => l
    case Lone(_, _) => l
    case Slot(t, n, rest) =>
      if n == name then Before(t + value, Fill(rest, name, value)) else Slot(t, n, Fill(rest, name, value))
  }

  /** All keys' placeholders filled in at once. */
  function FillAll(l: Line, m: map<string, string>): Line {
    match l
    case End(_) => l
    case Lone(_, _) => l
    case Slot(t, n, rest) =>
      if n in m then Before(t + m[n], FillAll(rest, m)) else Slot(t, n, FillAll(rest, m))
  }

  /** Text between a placeholder of another name and the next '@' never spells the name. */
  predicate NoFalseKey(l: Line, name: string) {
    l.Slot? ==> (!l.rest.End? && l.name != name ==> l.rest.text != name) && NoFalseKey(l.rest, name)
  }

  /** Where a key occurs there is an '@', and the text up to the next '@' is its name. */
  lemma KeyOccurs(s: string, name: string, i: nat)
    requires Clean(name) && i < |s|
    ensures OccursAt(s, Key(name), i) ==>
              s[i] == '@' && FirstAt(s[i + 1..]) == |name| && |name| < |s[i + 1..]| && s[i + 1..][..|name|] == name
  {
    if OccursAt(s, Key(name), i) {
      var k, r := Key(name), s[i + 1..];
      assert s[i] == s[i..i + |k|][0] == k[0];
      assert r[..|name| + 1] == s[i..i + |k|][1..] == name + "@";
      assert r == name + "@" + r[|name| + 1..];
      FirstAtIs(name, r[|name| + 1..]);
    }
  }

  /** A key does not occur where the text is clean. */
  lemma NoKeyInText(s: string, t: string, r: string, name: string)
    requires Clean(t) && Clean(name) && s == t + r
    ensures forall i: nat :: i < |t| ==> !OccursAt(s, Key(name), i)
  {
    forall i: nat | i < |t| ensures !OccursAt(s, Key(name), i) {
      KeyOccurs(s, name, i);
      assert s[i] == t[i];
    }
  }

  /** A key does not occur at an '@' after which another text comes before the next '@'. */
  lemma NoKeyAtOther(s: string, i: nat, n: string, r: string, name: string)
    requires Clean(n) && Clean(name) && n != name && i < |s| && s[i + 1..] == n + "@" + r
    ensures !OccursAt(s, Key(name), i)
  {
    KeyOccurs(s, name, i);
    FirstAtIs(n, r);
  }

  lemma NoKeyBeforeEnd(s: string, i: nat, u: string, name: string)
    requires Clean(u) && Clean(name) && i < |s| && s[i + 1..] == u
    ensures !OccursAt(s, Key(name), i)
  {
    KeyOccurs(s, name, i);
    FirstAtIs(u, "");
  }

  /** Up to the closing '@' of another placeholder the key does not occur. */
  lemma NoKeyBeforeClosing(s: string, t: string, n: string, r: string, name: string)
    requires Clean(t) && Clean(n) && Clean(name) && n != name && s == t + "@" + n + "@" + r
    ensures forall i: nat :: i < |t| + 1 + |n| ==> !OccursAt(s, Key(name), i)
  {
    hide OccursAt, Key;
    var after := "@" + n + "@" + r;
    assert s == t + after;
    NoKeyInText(s, t, after, name);
    assert s[|t| + 1..] == n + "@" + r;
    NoKeyAtOther(s, |t|, n, r, name);
    forall i: nat | |t| < i <= |t| + |n| ensures !OccursAt(s, Key(name), i) {
      KeyOccurs(s, name, i);
      assert s[i] == n[i - |t| - 1];
    }
  }

  /** Nor at that '@', if the rest of the line does not open with the name and another '@'. */
  lemma NoKeyAtClosing(s: string, i: nat, rest: Line, name: string)
    requires WellFormed(rest) && Clean(name) && i < |s| && s[i + 1..] == Render(rest)
    requires !rest.End? ==> rest.text != name
    ensures !OccursAt(s, Key(name), i)
  {
    hide OccursAt;
    match rest
    case End(u) => NoKeyBeforeEnd(s, i, u, name);
    case Lone(u, v) => NoKeyAtOther(s, i, u, v, name);
    case Slot(u, n, r) =>
      assert Render(rest) == u + "@" + (n + "@" + Render(r));
      NoKeyAtOther(s, i, u, n + "@" + Render(r), name);
  }

  /** In a line that opens with another placeholder, the key does not occur before the rest of the line. */
  lemma NoKeyBeforeRest(l: Line, name: string)
    requires l.Slot? && WellFormed(l) && Clean(name) && l.name != name && (!l.rest.End? ==> l.rest.text != name)
    ensures forall i: nat :: i < |l.text| + |Key(l.name)| ==> !OccursAt(Render(l), Key(name), i)
  {
    hide OccursAt;
    var s, t, n, r := Render(l), l.text, l.name, Render(l.rest);
    assert s == t + "@" + n + "@" + r;
    NoKeyBeforeClosing(s, t, n, r, name);
    assert s[|t| + 1 + |n| + 1..] == r;
    NoKeyAtClosing(s, |t| + 1 + |n|, l.rest, name);
  }

  /** In a line that opens with a placeholder of the key, that one is replaced first. */
  lemma ReplaceOpening(l: Line, value: string)
    requires l.Slot? && Clean(l.text) && Clean(l.name)
    ensures Replace(Render(l), Key(l.name), value) == l.text + value + Replace(Render(l.rest), Key(l.name), value)
  {
    hide OccursAt, Replace, Search, Key;
    var s, t, key, r := Render(l), l.text, Key(l.name), Render(l.rest);
    assert s == t + (key + r);
    NoKeyInText(s, t, key + r, l.name);
    SkipPrefix(s, key, value, |t|);
    assert s[|t|..] == key + r && s[..|t|] == t;
    ReplaceFront(key, r, value);
    assert t + (value + Replace(r, key, value)) == t + value + Replace(r, key, value);
  }

  /** In a line that opens with another placeholder, that one is copied. */
  lemma CopyOpening(l: Line, name: string, value: string)
    requires l.Slot? && WellFormed(l) && Clean(name) && l.name != name && (!l.rest.End? ==> l.rest.text != name)
    ensures Replace(Render(l), Key(name), value) == l.text + Key(l.name) + Replace(Render(l.rest), Key(name), value)
  {
    hide OccursAt, Replace, Search, Key;
    var s, p := Render(l), l.text + Key(l.name);
    NoKeyBeforeRest(l, name);
    SkipPrefix(s, Key(name), value, |p|);
    assert s[..|p|] == p && s[|p|..] == Render(l.rest);
  }

  /** A line with no placeholders has no keys, whether an '@' is left in it or not. */
  lemma CopyLast(l: Line, name: string, value: string)
    requires !l.Slot? && WellFormed(l) && Clean(name)
    ensures Replace(Render(l), Key(name), value) == Render(l)
  {
    hide OccursAt, Replace, Search, Key;
    var s := Render(l);
    match l
    case End(t) =>
      assert t == t + "";
      NoKeyInText(s, t, "", name);
      SkipAll(s, Key(name), value);
    case Lone(t, u) =>
      assert s == t + ("@" + u);
      NoKeyInText(s, t, "@" + u, name);
      assert s[|t| + 1..] == u;
      NoKeyBeforeEnd(s, |t|, u, name);
      forall i: nat | |t| < i < |s| ensures !OccursAt(s, Key(name), i) {
        KeyOccurs(s, name, i);
        assert s[i] == u[i - |t| - 1];
      }
      SkipAll(s, Key(name), value);
  }

  /** Replacing a key in the rendered line is filling in its placeholders. */
  lemma {:induction false} ReplaceIsFill(l: Line, name: string, value: string)
    requires WellFormed(l) && Clean(name) && NoFalseKey(l, name)
    ensures Replace(Render(l), Key(name), value) == Render(Fill(l, name, value))
  {
    hide OccursAt, Replace, Search, Key;
    match l
    case End(_) => CopyLast(l, name, value);
    case Lone(_, _) => CopyLast(l, name, value);
    case Slot(t, n, rest) =>
      ReplaceIsFill(rest, name, value);
      if n == name {
        ReplaceOpening(l, value);
      } else {
        CopyOpening(l, name, value);
      }
  }

  /** A key whose first '@' closes another placeholder is taken first. */
  lemma FalseKeyTaken(t: string, n: string, name: string, v: string, value: string)
    requires Clean(t) && Clean(n) && Clean(name) && n != name
    ensures Replace(t + "@" + n + (Key(name) + v), Key(name), value) == t + "@" + n + (value + Replace(v, Key(name), value))
  {
    hide OccursAt, Replace, Search;
    var u, key := t + "@" + n, Key(name);
    var s := u + (key + v);
    assert s == t + "@" + n + "@" + (name + "@" + v);
    NoKeyBeforeClosing(s, t, n, name + "@" + v, name);
    SkipPrefix(s, key, value, |u|);
    assert s[|u|..] == key + v && s[..|u|] == u;
    ReplaceFront(key, v, value);
  }

  /** Clean text in front of an '@' is copied. */
  lemma CleanFrontKept(n: string, r: string, name: string, value: string)
    requires Clean(n) && Clean(name)
    ensures Replace(n + r, Key(name), value) == n + Replace(r, Key(name), value)
  {
    hide OccursAt, Replace, Search;
    NoKeyInText(n + r, n, r, name);
    SkipPrefix(n + r, Key(name), value, |n|);
    assert (n + r)[..|n|] == n && (n + r)[|n|..] == r;
  }

  lemma CleanVersusAt(u: string, value: string, n: string, x: string, y: string)
    requires Clean(value) && Clean(n) && (value != "" || n != "")
    ensures u + (value + (n + x)) != u + ("@" + y)
  {
    var a, b := u + (value + (n + x)), u + ("@" + y);
    assert a[|u|] == if value != "" then value[0] else n[0];
    assert b[|u|] == '@';
  }

  /** Removing a key from a string leaves no more than the front of the string and what removing it from the rest leaves. */
  lemma {:induction false} RemovedFromRest(s: string, key: string, m: nat)
    requires key != "" && m <= |s|
    ensures |Replace(s, key, "")| <= m + |Replace(s[m..], key, "")|
    decreases |s|
  {
    hide Replace, Search, OccursAt;
    ReplaceFrom(s, key, "", 0);
    ReplaceFrom(s, key, "", m);
    assert s[0..] == s;
    if Search(key, s, 0).Some? {
      var k := Search(key, s, 0).value;
      if m <= k {
        SearchFindsFirstAll(key, s);
        SkipPrefix(s, key, "", m);
      } else if k + |key| <= m {
        RemovedFromRest(s[k + |key|..], key, m - k - |key|);
        assert s[k + |key|..][m - k - |key|..] == s[m..];
      } else {
        var after := Search(key, s, m);
        var e := if after.Some? then after.value + |key| else |s|;
        RemovedFromRest(s[k + |key|..], key, e - k - |key|);
        assert s[k + |key|..][e - k - |key|..] == s[e..];
        assert |Replace(s, key, "")| == k + |Replace(s[k + |key|..], key, "")|;
        if after == None {
          assert s[e..] == "";
          EmptyHasNoKey(key, "");
        } else {
          assert |Replace(s[m..], key, "")| == after.value - m + |Replace(s[e..], key, "")|;
        }
      }
    } else {
      SearchNone(key, s, m);
    }
  }

  lemma SearchFindsFirstAll(key: string, s: string)
    requires Search(key, s, 0).Some?
    ensures forall i: nat :: i < Search(key, s, 0).value ==> !OccursAt(s, key, i)
  {
    forall i: nat | i < Search(key, s, 0).value ensures !OccursAt(s, key, i) {
      SearchFindsFirst(key, s, 0, i);
    }
  }

  lemma SearchNone(key: string, s: string, m: nat)
    requires m <= |s| && Search(key, s, 0) == None
    ensures Search(key, s, m) == None
  {
    forall j: nat | j < m ensures !OccursAt(s, key, j) {
      SearchFindsFirst(key, s, 0, j);
    }
    SearchSkips(key, s, 0, m);
  }

  /** Removing a key leaves no more than removing its placeholders does. */
  lemma {:induction false} RemovesPlaceholders(l: Line, name: string)
    requires WellFormed(l) && Clean(name)
    ensures |Replace(Render(l), Key(name), "")| <= |Render(Fill(l, name, ""))|
  {
    hide Replace, Search, OccursAt, Key;
    if l.Slot? {
      RemovesPlaceholders(l.rest, name);
      if l.name == name {
        ReplaceOpening(l, "");
      } else {
        var p := l.text + Key(l.name);
        RemovedFromRest(Render(l), Key(name), |p|);
        assert Render(l)[|p|..] == Render(l.rest);
      }
    } else {
      CopyLast(l, name, "");
    }
  }

  /** With nothing to put in, a false key in front of a placeholder without a name makes the line too short. */
  lemma FalseKeyShortens(u: string, name: string, l: Line)
    requires WellFormed(l) && Clean(name) && name != ""
    ensures u + Replace("@" + Render(l), Key(name), "") != u + ("@" + (name + Key("") + Render(Fill(l, name, ""))))
  {
    hide Replace, Search, OccursAt;
    var s := "@" + Render(l);
    RemovedFromRest(s, Key(name), 1);
    assert s[1..] == Render(l);
    RemovesPlaceholders(l, name);
  }

  lemma OuterParts(l: Line)
    requires WellFormed(l) && l.Slot?
    ensures Clean(l.text) && Clean(l.name) && Clean(l.rest.text)
    ensures l.rest.Slot? ==> Clean(l.rest.name) && WellFormed(l.rest.rest)
    ensures l.rest.Lone? ==> Clean(l.rest.tail)
  {
    assert WellFormed(l.rest);
  }

  /** What comes behind the first '@' of a line: the text up to the next one, and the rest. */
  function TextBehind(l: Line): string
    requires !l.End?
  {
    if l.Lone? then l.tail else l.name
  }

  function RestBehind(l: Line): string
    requires !l.End?
  {
    if l.Lone? then "" else "@" + Render(l.rest)
  }

  lemma RenderTwo(l: Line)
    requires l.Slot? && !l.rest.End?
    ensures Render(l.rest) == l.rest.text + "@" + (TextBehind(l.rest) + RestBehind(l.rest))
    ensures Render(l) == l.text + "@" + l.name + (Key(l.rest.text) + (TextBehind(l.rest) + RestBehind(l.rest)))
  {
  }

  /** A key spelt between a placeholder and the next '@' takes the '@' of both. */
  lemma FalseKeyResult(l: Line, name: string, value: string)
    requires WellFormed(l) && Clean(name)
    requires l.Slot? && l.name != name && !l.rest.End? && l.rest.text == name
    ensures Replace(Render(l), Key(name), value) ==
            l.text + "@" + l.name + (value + (TextBehind(l.rest) + Replace(RestBehind(l.rest), Key(name), value)))
  {
    hide OccursAt, Replace, Search, WellFormed, Key, Render;
    RenderTwo(l);
    OuterParts(l);
    FalseKeyTaken(l.text, l.name, name, TextBehind(l.rest) + RestBehind(l.rest), value);
    CleanFrontKept(TextBehind(l.rest), RestBehind(l.rest), name, value);
  }

  /** So the pass does not do what filling in does. */
  lemma FalseKeyShows(l: Line, name: string, value: string)
    requires WellFormed(l) && Clean(name) && Clean(value) && (value != "" || name != "")
    requires l.Slot? && l.name != name && !l.rest.End? && l.rest.text == name
    ensures Replace(Render(l), Key(name), value) != Render(Fill(l, name, value))
  {
    hide OccursAt, Replace, Search, WellFormed, Key;
    FalseKeyResult(l, name, value);
    OuterParts(l);
    var u, rest := l.text + "@" + l.name, Render(Fill(l.rest, name, value));
    assert l.text + Key(l.name) + rest == u + ("@" + rest) by { KeyParts(l.text, l.name, rest); }
    var n, r := TextBehind(l.rest), Replace(RestBehind(l.rest), Key(name), value);
    if value != "" || n != "" {
      CleanVersusAt(u, value, n, r, rest);
    } else if l.rest.Lone? {
      EmptyHasNoKey(Key(name), value);
    } else {
      assert "" + ("" + r) == r;
      FalseKeyShortens(u, name, l.rest.rest);
    }
  }

  lemma KeyParts(t: string, n: string, rest: string)
    ensures t + Key(n) + rest == t + "@" + n + ("@" + rest)
  {
  }

  lemma CancelPrefix(p: string, a: string, b: string)
    ensures p + a == p + b ==> a == b
  {
    assert a == (p + a)[|p|..];
    assert b == (p + b)[|p|..];
  }

  /** For one key, replacing is filling in exactly when no text between placeholders is a false key. */
  lemma {:induction false} ReplaceIsFillExactly(l: Line, name: string, value: string)
    requires WellFormed(l) && Clean(name) && Clean(value) && (value != "" || name != "")
    ensures Replace(Render(l), Key(name), value) == Render(Fill(l, name, value)) <==> NoFalseKey(l, name)
  {
    hide OccursAt, Replace, Search, Key;
    if NoFalseKey(l, name) {
      ReplaceIsFill(l, name, value);
    } else if l.name == name {
      ReplaceIsFillExactly(l.rest, name, value);
      ReplaceOpening(l, value);
      CancelPrefix(l.text + value, Replace(Render(l.rest), Key(name), value), Render(Fill(l.rest, name, value)));
    } else if !l.rest.End? && l.rest.text == name {
      FalseKeyShows(l, name, value);
    } else {
      ReplaceIsFillExactly(l.rest, name, value);
      CopyOpening(l, name, value);
      CancelPrefix(l.text + Key(l.name), Replace(Render(l.rest), Key(name), value), Render(Fill(l.rest, name, value)));
    }
  }

  // ---------- all keys, in any order ----------

  /** From no placeholder on does any run of text spell a key by the time that key's turn can come. */
  predicate RunsOk(l: Line, m: map<string, string>) {
    l.Slot? ==> RunOk(l.rest, "", l.name, {}, m) && RunsOk(l.rest, m)
  }

  /**
   The run of text behind a placeholder named start, up to an '@' that is still there once the keys in used are
   filled in, is none of the other keys; and so on past the next placeholder of a key, once it is filled in too.
   */
  predicate RunOk(l: Line, run: string, start: string, used: set<string>, m: map<string, string>) {
    && (!l.End? && !(l.Slot? && l.name in used) ==> run + l.text !in m.Keys - used - {start})
    && (l.Slot? && l.name in m && l.name != start ==>
          RunOk(l.rest, run + l.text + m[l.name], start, used + {l.name}, m))
  }

  function ToMap(subs: seq<Binding>): map<string, string> {
    if subs == [] then map[] else ToMap(subs[1..])[subs[0].name := subs[0].value]
  }

  ghost predicate GoodBindings(subs: seq<Binding>) {
    && (forall i :: 0 <= i < |subs| ==> Clean(subs[i].name) && Clean(subs[i].value))
    && (forall i, j :: 0 <= i < j < |subs| ==> subs[i].name != subs[j].name)
  }

  lemma {:induction false} RunsOkNoFalseKey(l: Line, m: map<string, string>, name: string)
    requires RunsOk(l, m) && name in m
    ensures NoFalseKey(l, name)
  {
    if l.Slot? {
      RunsOkNoFalseKey(l.rest, m, name);
      if !l.rest.End? { assert "" + l.rest.text == l.rest.text; }
    }
  }

  lemma BeforeAgain(a: string, b: string, l: Line)
    ensures Before(a, Before(b, l)) == Before(a + b, l)
  {
    assert a + (b + l.text) == (a + b) + l.text;
  }

  lemma {:induction false} FillAllBefore(s: string, l: Line, m: map<string, string>)
    ensures FillAll(Before(s, l), m) == Before(s, FillAll(l, m))
  {
    match l
    case End(_) =>
    case Lone(_, _) =>
    case Slot(t, n, rest) =>
      if n in m {
        BeforeAgain(s, t + m[n], FillAll(rest, m));
        assert s + (t + m[n]) == (s + t) + m[n];
      }
  }

  lemma RunOkBefore(s: string, l: Line, run: string, start: string, used: set<string>, m: map<string, string>)
    ensures RunOk(Before(s, l), run, start, used, m) <==> RunOk(l, run + s, start, used, m)
  {
    assert run + (s + l.text) == (run + s) + l.text;
  }

  lemma RunsOkBefore(s: string, l: Line, m: map<string, string>)
    ensures RunsOk(Before(s, l), m) <==> RunsOk(l, m)
  {
  }

  /** Filling in a key is one of the ways a run can go on. */
  lemma {:induction false} RunOkAfterFill(l: Line, run: string, start: string, used: set<string>, m: map<string, string>, name: string)
    requires RunOk(l, run, start, used, m) && name in m && name != start
    ensures RunOk(Fill(l, name, m[name]), run, start, used - {name}, m - {name})
    decreases l
  {
    if l.Slot? {
      var v := m[name];
      if l.name == name {
        RunOkAfterFill(l.rest, run + l.text + v, start, used + {name}, m, name);
        RunOkBefore(l.text + v, Fill(l.rest, name, v), run, start, used - {name}, m - {name});
        assert run + (l.text + v) == run + l.text + v && used + {name} - {name} == used - {name};
      } else if l.name in m && l.name != start {
        RunOkAfterFill(l.rest, run + l.text + m[l.name], start, used + {l.name}, m, name);
        assert used + {l.name} - {name} == used - {name} + {l.name};
      }
    }
  }

  /** And a run that goes on in that way is no false key before either. */
  lemma {:induction false} RunOkBeforeFill(l: Line, run: string, start: string, used: set<string>, m: map<string, string>, name: string)
    requires name in m && name != start && name in used
    requires RunOk(Fill(l, name, m[name]), run, start, used - {name}, m - {name})
    ensures RunOk(l, run, start, used, m)
    decreases l
  {
    if l.Slot? {
      var v := m[name];
      if l.name == name {
        RunOkBefore(l.text + v, Fill(l.rest, name, v), run, start, used - {name}, m - {name});
        assert run + (l.text + v) == run + l.text + v && used + {name} == used;
        RunOkBeforeFill(l.rest, run + l.text + v, start, used, m, name);
      } else if l.name in m && l.name != start {
        assert used + {l.name} - {name} == used - {name} + {l.name};
        RunOkBeforeFill(l.rest, run + l.text + m[l.name], start, used + {l.name}, m, name);
      }
    }
  }

  lemma {:induction false} RunsOkAfterFill(l: Line, m: map<string, string>, name: string)
    requires RunsOk(l, m) && name in m
    ensures RunsOk(Fill(l, name, m[name]), m - {name})
  {
    if l.Slot? {
      RunsOkAfterFill(l.rest, m, name);
      if l.name == name {
        RunsOkBefore(l.text + m[name], Fill(l.rest, name, m[name]), m - {name});
      } else {
        RunOkAfterFill(l.rest, "", l.name, {}, m, name);
        assert {} - {name} == {};
      }
    }
  }

  /** The run behind the first placeholder is right if it is so after every first pass. */
  lemma FirstRunOk(l: Line, m: map<string, string>)
    requires l.Slot?
    requires forall k | k in m :: NoFalseKey(l, k) && RunsOk(Fill(l, k, m[k]), m - {k})
    ensures RunOk(l.rest, "", l.name, {}, m)
  {
    var r := l.rest;
    assert "" + r.text == r.text;
    if r.Slot? && r.name in m && r.name != l.name {
      var a, v := r.name, m[r.name];
      assert Fill(l, a, v) == Slot(l.text, l.name, Before(r.text + v, Fill(r.rest, a, v)));
      RunOkBefore(r.text + v, Fill(r.rest, a, v), "", l.name, {}, m - {a});
      assert "" + (r.text + v) == "" + r.text + v && {a} - {a} == {} && {} + {a} == {a};
      RunOkBeforeFill(r.rest, "" + r.text + v, l.name, {a}, m, a);
    }
  }

  lemma {:induction false} RunsOkFromFills(l: Line, m: map<string, string>)
    requires forall k | k in m :: NoFalseKey(l, k) && RunsOk(Fill(l, k, m[k]), m - {k})
    ensures RunsOk(l, m)
  {
    if l.Slot? {
      FirstRunOk(l, m);
      forall k | k in m ensures NoFalseKey(l.rest, k) && RunsOk(Fill(l.rest, k, m[k]), m - {k}) {
        if l.name == k { RunsOkBefore(l.text + m[k], Fill(l.rest, k, m[k]), m - {k}); }
      }
      RunsOkFromFills(l.rest, m);
    }
  }

  lemma {:induction false} FillAllAfterFill(l: Line, m: map<string, string>, name: string)
    requires name in m
    ensures FillAll(Fill(l, name, m[name]), m - {name}) == FillAll(l, m)
  {
    if l.Slot? {
      FillAllAfterFill(l.rest, m, name);
      if l.name == name {
        FillAllBefore(l.text + m[name], Fill(l.rest, name, m[name]), m - {name});
      }
    }
  }

  lemma {:induction false} WellFormedFill(l: Line, name: string, value: string)
    requires WellFormed(l) && Clean(value)
    ensures WellFormed(Fill(l, name, value))
  {
    if l.Slot? { WellFormedFill(l.rest, name, value); }
  }

  lemma {:induction false} FillAllNothing(l: Line)
    ensures FillAll(l, map[]) == l
  {
    if l.Slot? { FillAllNothing(l.rest); }
  }

  lemma {:induction false} NamesOf(subs: seq<Binding>, name: string)
    ensures name in ToMap(subs) <==> exists i :: 0 <= i < |subs| && subs[i].name == name
  {
    if subs != [] {
      NamesOf(subs[1..], name);
      if i :| 0 <= i < |subs| && subs[i].name == name {
        assert i > 0 ==> subs[1..][i - 1].name == name;
      }
      if i :| 0 <= i < |subs[1..]| && subs[1..][i].name == name {
        assert subs[i + 1].name == name;
      }
    }
  }

  /** Every pass fills in the placeholders of its key and does nothing else. */
  predicate PassesFill(l: Line, subs: seq<Binding>)
    decreases |subs|
  {
    subs == [] ||
    (var b := subs[0];
     && Replace(Render(l), Key(b.name), b.value) == Render(Fill(l, b.name, b.value))
     && PassesFill(Fill(l, b.name, b.value), subs[1..]))
  }

  lemma RestOfBindings(subs: seq<Binding>)
    requires GoodBindings(subs) && subs != []
    ensures GoodBindings(subs[1..]) && ToMap(subs) - {subs[0].name} == ToMap(subs[1..])
    ensures subs[0].name in ToMap(subs) && ToMap(subs)[subs[0].name] == subs[0].value
  {
    NamesOf(subs[1..], subs[0].name);
  }

  lemma {:induction false} RunsOkPassesFill(l: Line, subs: seq<Binding>)
    requires WellFormed(l) && GoodBindings(subs) && RunsOk(l, ToMap(subs))
    ensures PassesFill(l, subs)
    decreases |subs|
  {
    if subs != [] {
      hide Replace, RunsOk, NoFalseKey, ToMap, GoodBindings;
      var b, m := subs[0], ToMap(subs);
      RestOfBindings(subs);
      assert Clean(b.name) && Clean(b.value) by { CleanBinding(subs, 0); }
      RunsOkNoFalseKey(l, m, b.name);
      ReplaceIsFill(l, b.name, b.value);
      WellFormedFill(l, b.name, b.value);
      RunsOkAfterFill(l, m, b.name);
      RunsOkPassesFill(Fill(l, b.name, b.value), subs[1..]);
    }
  }

  lemma CleanBinding(subs: seq<Binding>, i: nat)
    requires GoodBindings(subs) && i < |subs|
    ensures Clean(subs[i].name) && Clean(subs[i].value)
  {
  }

  /** Passes that only fill in give what filling in all placeholders at once gives. */
  lemma {:induction false} PassesGiveFillAll(l: Line, subs: seq<Binding>)
    requires GoodBindings(subs) && PassesFill(l, subs)
    ensures ReplaceAll(Render(l), subs) == Render(FillAll(l, ToMap(subs)))
    decreases |subs|
  {
    if subs == [] {
      FillAllNothing(l);
    } else {
      hide Replace, Render, FillAll, Fill, ToMap, GoodBindings;
      var b := subs[0];
      RestOfBindings(subs);
      FillAllAfterFill(l, ToMap(subs), b.name);
      PassesGiveFillAll(Fill(l, b.name, b.value), subs[1..]);
    }
  }

  /** One pass after another gives what filling in all placeholders at once gives. */
  lemma SequentialIsSimultaneous(l: Line, subs: seq<Binding>)
    requires WellFormed(l) && GoodBindings(subs) && RunsOk(l, ToMap(subs))
    ensures ReplaceAll(Render(l), subs) == Render(FillAll(l, ToMap(subs)))
  {
    hide PassesFill, GoodBindings, RunsOk, ToMap, ReplaceAll, FillAll;
    RunsOkPassesFill(l, subs);
    PassesGiveFillAll(l, subs);
  }

  /** No key or value holds an '@', and no key without a name is replaced by nothing. */
  ghost predicate GoodKeys(m: map<string, string>) {
    forall k | k in m :: Clean(k) && Clean(m[k]) && (k != "" || m[k] != "")
  }

  ghost predicate Lists(subs: seq<Binding>, m: map<string, string>) {
    GoodBindings(subs) && ToMap(subs) == m
  }

  /** A list of bindings that opens with a given one. */
  lemma ListsFrom(k: string, rest: seq<Binding>, m: map<string, string>)
    requires GoodKeys(m) && k in m && Lists(rest, m - {k})
    ensures Lists([Binding(k, m[k])] + rest, m)
  {
    var subs := [Binding(k, m[k])] + rest;
    assert subs[1..] == rest && (m - {k})[k := m[k]] == m;
    NamesOf(rest, k);
    forall i, j | 0 <= i < j < |subs| ensures subs[i].name != subs[j].name {
      if i == 0 { assert rest[j - 1].name == subs[j].name; }
    }
  }

  lemma {:induction false} SomeList(m: map<string, string>) returns (subs: seq<Binding>)
    requires GoodKeys(m)
    ensures Lists(subs, m)
    decreases |m|
  {
    if m == map[] {
      subs := [];
    } else {
      var k :| k in m;
      SmallerMap(m, k);
      var rest := SomeList(m - {k});
      ListsFrom(k, rest, m);
      subs := [Binding(k, m[k])] + rest;
    }
  }

  lemma SmallerMap(m: map<string, string>, k: string)
    requires k in m
    ensures |m - {k}| < |m|
  {
    var m' := m - {k};
    assert m'.Keys == m.Keys - {k} && |m'| == |m'.Keys| && |m| == |m.Keys|;
  }

  /** If every order fills in, each key can come first, and the rest goes on in every order. */
  lemma OrdersFromFirst(l: Line, m: map<string, string>, k: string)
    requires WellFormed(l) && GoodKeys(m) && k in m
    requires forall subs | Lists(subs, m) :: PassesFill(l, subs)
    ensures NoFalseKey(l, k)
    ensures forall rest | Lists(rest, m - {k}) :: PassesFill(Fill(l, k, m[k]), rest)
  {
    hide Replace, NoFalseKey, Lists, Fill;
    var some := SomeList(m - {k});
    forall rest | Lists(rest, m - {k})
      ensures PassesFill(Fill(l, k, m[k]), rest) && Replace(Render(l), Key(k), m[k]) == Render(Fill(l, k, m[k]))
    {
      var subs := [Binding(k, m[k])] + rest;
      ListsFrom(k, rest, m);
      assert subs[1..] == rest && PassesFill(l, subs);
    }
    ReplaceIsFillExactly(l, k, m[k]);
  }

  lemma {:induction false} EveryOrderRunsOk(l: Line, m: map<string, string>)
    requires WellFormed(l) && GoodKeys(m)
    requires forall subs | Lists(subs, m) :: PassesFill(l, subs)
    ensures RunsOk(l, m)
    decreases |m|
  {
    hide RunsOk, NoFalseKey, PassesFill, Lists, Fill, WellFormed;
    forall k | k in m ensures NoFalseKey(l, k) && RunsOk(Fill(l, k, m[k]), m - {k}) {
      OrdersFromFirst(l, m, k);
      SmallerMap(m, k);
      WellFormedFill(l, k, m[k]);
      EveryOrderRunsOk(Fill(l, k, m[k]), m - {k});
    }
    RunsOkFromFills(l, m);
  }

  /** On a line every pass only fills in placeholders, in whatever order the keys come, exactly when no run spells a key. */
  lemma EveryOrderFillsExactly(s: string, m: map<string, string>)
    requires GoodKeys(m)
    ensures (forall subs | Lists(subs, m) :: PassesFill(Parse(s), subs)) <==> RunsOk(Parse(s), m)
  {
    hide RunsOk, PassesFill, WellFormed;
    var l := Parse(s);
    ParseThenRender(s);
    if RunsOk(l, m) {
      forall subs | Lists(subs, m) ensures PassesFill(l, subs) { RunsOkPassesFill(l, subs); }
    }
    if forall subs | Lists(subs, m) :: PassesFill(l, subs) { EveryOrderRunsOk(l, m); }
  }

  /** The order of the keys does not matter. */
  lemma OrderIndependent(s: string, subs: seq<Binding>, others: seq<Binding>)
    requires GoodBindings(subs) && GoodBindings(others) && ToMap(subs) == ToMap(others)
    requires RunsOk(Parse(s), ToMap(subs))
    ensures ReplaceAll(s, subs) == ReplaceAll(s, others) == Render(FillAll(Parse(s), ToMap(subs)))
  {
    ParseThenRender(s);
    SequentialIsSimultaneous(Parse(s), subs);
    SequentialIsSimultaneous(Parse(s), others);
  }

  lemma FalseKeyReplaced(a: string, name: string, b: string, value: string)
    requires Clean(a) && Clean(name) && Clean(b) && a != name
    ensures Replace("@" + a + (Key(name) + (b + "@")), Key(name), value) == "@" + a + (value + (b + "@"))
  {
    hide OccursAt, Replace, Search;
    var v := b + "@";
    assert "" + "@" + a == "@" + a;
    FalseKeyTaken("", a, name, v, value);
    NoKeyInText(v, b, "@", name);
    assert v[|b| + 1..] == "";
    NoKeyBeforeEnd(v, |b|, "", name);
    SkipAll(v, Key(name), value);
  }

  /**
   Without the condition on runs the passes go wrong: text between two placeholders that are not keys
   is taken for a key, and the delimiters of its neighbours are lost.
   */
  lemma FalseKeyIsReplaced(a: string, name: string, b: string, value: string)
    requires Clean(a) && Clean(name) && Clean(b) && a != name && b != name
    ensures var l := Slot("", a, Slot(name, b, End("")));
      && FillAll(l, map[name := value]) == l
      && ReplaceAll(Render(l), [Binding(name, value)]) == "@" + a + value + b + "@"
  {
    hide Replace, ReplaceAll;
    var l := Slot("", a, Slot(name, b, End("")));
    var s := Render(l);
    assert Render(l.rest) == name + Key(b) + "";
    assert s == "@" + a + (Key(name) + (b + "@"));
    FalseKeyReplaced(a, name, b, value);
    assert "@" + a + (value + (b + "@")) == "@" + a + value + b + "@";
    OnePass(s, Binding(name, value));
    assert FillAll(l.rest, map[name := value]) == l.rest;
  }
}
