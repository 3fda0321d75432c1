/**
 Dynamic binding of Lisp special variables.

 The system binds shallowly: the current value of a symbol is in the symbol itself, and the values it
 hides are on the bind stack. The simple idea it must agree with is deep binding: an association list
 of bindings, searched from its newest entry.
 */
module ShallowBinding {

  datatype Saved<S, V> = Saved(sym: S, val: V)

  // ---------- deep binding ----------

  /** What every symbol is worth: each binding of env, oldest first, overrides what came before. */
  function Visible<S, V>(global: map<S, V>, env: seq<Saved<S, V>>): map<S, V> {
    if env == [] then global
    else Visible(global, env[..|env| - 1])[env[|env| - 1].sym := env[|env| - 1].val]
  }

  /** Assignment changes the newest binding of sym, or its global value if it has none. */
  function AssignDeep<S, V>(global: map<S, V>, env: seq<Saved<S, V>>, sym: S, val: V)
    : (r: (map<S, V>, seq<Saved<S, V>>))
    ensures |r.1| == |env|
  {
    if env == [] then (global[sym := val], env)
    else
      var top, rest := env[|env| - 1], env[..|env| - 1];
      if top.sym == sym then (global, rest + [Saved(sym, val)])
      else
        var (g, e) := AssignDeep(global, rest, sym, val);
        (g, e + [top])
  }

  /** The newest binding of sym is the one at i. */
  ghost predicate NewestAt<S, V>(env: seq<Saved<S, V>>, sym: S, i: nat) {
    i < |env| && env[i].sym == sym && forall j :: i < j < |env| ==> env[j].sym != sym
  }

  /** Assignment changes exactly the newest binding of sym. */
  lemma {:induction false} AssignChangesNewest<S, V>(global: map<S, V>, env: seq<Saved<S, V>>, sym: S, val: V, i: nat)
    requires NewestAt(env, sym, i)
    ensures AssignDeep(global, env, sym, val) == (global, env[i := Saved(sym, val)])
    decreases |env|
  {
    var top, rest := env[|env| - 1], env[..|env| - 1];
    if i == |rest| {
      assert env[i := Saved(sym, val)] == rest + [Saved(sym, val)];
    } else {
      assert NewestAt(rest, sym, i);
      AssignChangesNewest(global, rest, sym, val, i);
      assert env[i := Saved(sym, val)] == rest[i := Saved(sym, val)] + [top];
    }
  }

  /** Assignment to a symbol without a binding changes exactly its global value. */
  lemma {:induction false} AssignChangesGlobal<S, V>(global: map<S, V>, env: seq<Saved<S, V>>, sym: S, val: V)
    requires forall i :: 0 <= i < |env| ==> env[i].sym != sym
    ensures AssignDeep(global, env, sym, val) == (global[sym := val], env)
    decreases |env|
  {
    if env != [] {
      var top, rest := env[|env| - 1], env[..|env| - 1];
      AssignChangesGlobal(global, rest, sym, val);
      assert env == rest + [top];
    }
  }

  /** The visible value of a bound symbol is that of its newest binding. */
  lemma {:induction false} VisibleIsNewest<S, V>(global: map<S, V>, env: seq<Saved<S, V>>, sym: S, i: nat)
    requires NewestAt(env, sym, i)
    ensures sym in Visible(global, env) && Visible(global, env)[sym] == env[i].val
    decreases |env|
  {
    if i < |env| - 1 {
      var rest := env[..|env| - 1];
      assert NewestAt(rest, sym, i);
      VisibleIsNewest(global, rest, sym, i);
    }
  }

  /** The visible value of a symbol without a binding is the global one. */
  lemma {:induction false} VisibleIsGlobal<S, V>(global: map<S, V>, env: seq<Saved<S, V>>, sym: S)
    requires forall i :: 0 <= i < |env| ==> env[i].sym != sym
    ensures sym in Visible(global, env) <==> sym in global
    ensures sym in global ==> Visible(global, env)[sym] == global[sym]
    decreases |env|
  {
    if env != [] { VisibleIsGlobal(global, env[..|env| - 1], sym); }
  }

  // ---------- shallow binding ----------

  /** cells holds s_dbind of every symbol; bds is the bind stack; marks the bind stack heights saved in the frames. */
  datatype Shallow<!S, V> = Shallow(cells: map<S, V>, bds: seq<Saved<S, V>>, marks: seq<nat>)

  /** bds_unwind1. */
  function Unwind1<S, V>(st: Shallow<S, V>): Shallow<S, V>
    requires st.bds != []
  {
    var top := st.bds[|st.bds| - 1];
    st.(cells := st.cells[top.sym := top.val], bds := st.bds[..|st.bds| - 1])
  }

  /** Unwinding one by one until the bind stack is no higher than depth. */
  function UnwindTo<S, V>(st: Shallow<S, V>, depth: nat): (r: Shallow<S, V>)
    ensures |r.bds| == if |st.bds| <= depth then |st.bds| else depth
    decreases |st.bds|
  {
    if |st.bds| <= depth then st else UnwindTo(Unwind1(st), depth)
  }

  // ---------- runs ----------

  datatype Step<S, V> =
    | Bind(sym: S, val: V)
    | Assign(sym: S, val: V)
    | Unwind
    | PushFrame
    | PopFrame
    | ExitTo(frame: nat)

  /** Steps the machine can take: bound and assigned symbols exist, pops find something, exits name a live frame. */
  predicate Enabled<S, V>(st: Shallow<S, V>, step: Step<S, V>) {
    match step
    case Bind(s, _) => s in st.cells
    case Assign(s, _) => s in st.cells
    case Unwind => st.bds != []
    case PushFrame => true
    case PopFrame => st.marks != []
    case ExitTo(k) => k < |st.marks|
  }

  function ShallowStep<S, V>(st: Shallow<S, V>, step: Step<S, V>): Shallow<S, V>
    requires Enabled(st, step)
  {
    match step
    case Bind(s, v) => st.(cells := st.cells[s := v], bds := st.bds + [Saved(s, st.cells[s])])
    case Assign(s, v) => st.(cells := st.cells[s := v])
    case Unwind => Unwind1(st)
    case PushFrame => st.(marks := st.marks + [|st.bds|])
    case PopFrame => st.(marks := st.marks[..|st.marks| - 1])
    case ExitTo(k) => UnwindTo(st, st.marks[k]).(marks := st.marks[..k + 1])
  }

  datatype Deep<!S, V> = Deep(global: map<S, V>, env: seq<Saved<S, V>>, marks: seq<nat>)

  function DeepStep<S, V>(d: Deep<S, V>, step: Step<S, V>): Deep<S, V>
    requires step.Unwind? ==> d.env != []
    requires step.PopFrame? ==> d.marks != []
    requires step.ExitTo? ==> step.frame < |d.marks|
  {
    match step
    case Bind(s, v) => d.(env := d.env + [Saved(s, v)])
    case Assign(s, v) => var (g, e) := AssignDeep(d.global, d.env, s, v); d.(global := g, env := e)
    case Unwind => d.(env := d.env[..|d.env| - 1])
    case PushFrame => d.(marks := d.marks + [|d.env|])
    case PopFrame => d.(marks := d.marks[..|d.marks| - 1])
    case ExitTo(k) =>
      d.(env := if d.marks[k] < |d.env| then d.env[..d.marks[k]] else d.env, marks := d.marks[..k + 1])
  }

  ghost predicate ShallowRun<S, V>(states: seq<Shallow<S, V>>, steps: seq<Step<S, V>>) {
    && |states| == |steps| + 1
    && forall i :: 0 <= i < |steps| ==> Enabled(states[i], steps[i]) && states[i + 1] == ShallowStep(states[i], steps[i])
  }

  // ---------- the simulation ----------

  /** Popping both stacks together: the cell of each binding's symbol holds the value deep binding gives it. */
  ghost predicate Agree<S, V>(cells: map<S, V>, bds: seq<Saved<S, V>>, global: map<S, V>, env: seq<Saved<S, V>>)
    decreases |bds|
  {
    && |bds| == |env|
    && if bds == [] then cells == global
       else
         var s, e := bds[|bds| - 1], env[|env| - 1];
         && s.sym == e.sym && s.sym in cells && cells[s.sym] == e.val
         && Agree(cells[s.sym := s.val], bds[..|bds| - 1], global, env[..|env| - 1])
  }

  ghost predicate Simulates<S, V>(st: Shallow<S, V>, d: Deep<S, V>) {
    st.marks == d.marks && Agree(st.cells, st.bds, d.global, d.env)
  }

  /** The cells show exactly what deep binding makes visible. */
  lemma {:induction false} AgreeShowsVisible<S, V>(cells: map<S, V>, bds: seq<Saved<S, V>>, global: map<S, V>,
                                                    env: seq<Saved<S, V>>)
    requires Agree(cells, bds, global, env)
    ensures cells == Visible(global, env)
    decreases |bds|
  {
    if bds != [] {
      var s, e := bds[|bds| - 1], env[|env| - 1];
      AgreeShowsVisible(cells[s.sym := s.val], bds[..|bds| - 1], global, env[..|env| - 1]);
      assert cells == cells[s.sym := s.val][e.sym := e.val];
    }
  }

  lemma {:induction false} AgreeAfterAssign<S, V>(cells: map<S, V>, bds: seq<Saved<S, V>>, global: map<S, V>,
                                                   env: seq<Saved<S, V>>, sym: S, val: V)
    requires Agree(cells, bds, global, env)
    ensures var (g, e) := AssignDeep(global, env, sym, val); Agree(cells[sym := val], bds, g, e)
    decreases |bds|
  {
    if bds != [] {
      var s, top, rest := bds[|bds| - 1], env[|env| - 1], env[..|env| - 1];
      var (g, e) := AssignDeep(global, env, sym, val);
      if top.sym == sym {
        assert cells[sym := val][sym := s.val] == cells[sym := s.val];
        assert e[..|e| - 1] == rest;
      } else {
        AgreeAfterAssign(cells[s.sym := s.val], bds[..|bds| - 1], global, rest, sym, val);
        assert cells[sym := val][s.sym := s.val] == cells[s.sym := s.val][sym := val];
        assert e[..|e| - 1] == AssignDeep(global, rest, sym, val).1;
      }
    }
  }

  lemma AgreeAfterBind<S, V>(cells: map<S, V>, bds: seq<Saved<S, V>>, global: map<S, V>, env: seq<Saved<S, V>>,
                              sym: S, val: V)
    requires Agree(cells, bds, global, env) && sym in cells
    ensures Agree(cells[sym := val], bds + [Saved(sym, cells[sym])], global, env + [Saved(sym, val)])
  {
    assert (bds + [Saved(sym, cells[sym])])[..|bds|] == bds;
    assert (env + [Saved(sym, val)])[..|env|] == env;
    assert cells[sym := val][sym := cells[sym]] == cells;
  }

  lemma {:induction false} AgreeAfterUnwind<S, V>(st: Shallow<S, V>, global: map<S, V>, env: seq<Saved<S, V>>, depth: nat)
    requires Agree(st.cells, st.bds, global, env)
    ensures var r := UnwindTo(st, depth);
      Agree(r.cells, r.bds, global, if depth < |env| then env[..depth] else env) && r.marks == st.marks
    decreases |st.bds|
  {
    if |st.bds| > depth {
      AgreeAfterUnwind(Unwind1(st), global, env[..|env| - 1], depth);
      assert depth < |env| - 1 ==> env[..|env| - 1][..depth] == env[..depth];
    }
  }

  lemma StepSimulates<S, V>(st: Shallow<S, V>, d: Deep<S, V>, step: Step<S, V>)
    requires Simulates(st, d) && Enabled(st, step)
    ensures Simulates(ShallowStep(st, step), DeepStep(d, step))
  {
    match step
    case Bind(s, v) => AgreeAfterBind(st.cells, st.bds, d.global, d.env, s, v);
    case Assign(s, v) => AgreeAfterAssign(st.cells, st.bds, d.global, d.env, s, v);
    case Unwind =>
    case PushFrame =>
    case PopFrame =>
    case ExitTo(k) => AgreeAfterUnwind(st, d.global, d.env, st.marks[k]);
  }

  /** The deep binding machine after the first n steps. */
  ghost function DeepAfter<S, V>(global: map<S, V>, states: seq<Shallow<S, V>>, steps: seq<Step<S, V>>, n: nat): (d: Deep<S, V>)
    requires ShallowRun(states, steps) && n <= |steps|
    requires states[0] == Shallow(global, [], [])
    ensures Simulates(states[n], d)
  {
    if n == 0 then Deep(global, [], [])
    else
      var d := DeepAfter(global, states, steps, n - 1);
      StepSimulates(states[n - 1], d, steps[n - 1]);
      DeepStep(d, steps[n - 1])
  }

  /**
   Over every run from an empty stack: the cells always show each symbol's newest binding, and unwinding
   one by one to any depth, so also to the height any frame has saved, shows the deep bindings of that depth.
   */
  lemma ShallowIsDeep<S, V>(global: map<S, V>, states: seq<Shallow<S, V>>, steps: seq<Step<S, V>>, n: nat, depth: nat)
    requires ShallowRun(states, steps) && n <= |steps| && states[0] == Shallow(global, [], [])
    ensures var d := DeepAfter(global, states, steps, n);
      && states[n].cells == Visible(d.global, d.env)
      && states[n].marks == d.marks
      && (depth <= |d.env| ==> UnwindTo(states[n], depth).cells == Visible(d.global, d.env[..depth]))
  {
    var d, st := DeepAfter(global, states, steps, n), states[n];
    AgreeShowsVisible(st.cells, st.bds, d.global, d.env);
    AgreeAfterUnwind(st, d.global, d.env, depth);
    var r := UnwindTo(st, depth);
    if depth < |d.env| {
      AgreeShowsVisible(r.cells, r.bds, d.global, d.env[..depth]);
    } else if depth == |d.env| {
      assert d.env[..depth] == d.env;
    }
  }

  lemma {:induction false} UnwindTwice<S, V>(st: Shallow<S, V>, high: nat, low: nat)
    requires low <= high
    ensures UnwindTo(UnwindTo(st, high), low) == UnwindTo(st, low)
    decreases |st.bds|
  {
    if |st.bds| > high { UnwindTwice(Unwind1(st), high, low); }
  }

  lemma {:induction false} UnwindIgnoresMarks<S, V>(st: Shallow<S, V>, marks: seq<nat>, depth: nat)
    ensures UnwindTo(st.(marks := marks), depth) == UnwindTo(st, depth).(marks := marks)
    decreases |st.bds|
  {
    if |st.bds| > depth { UnwindIgnoresMarks(Unwind1(st), marks, depth); }
  }

  /** A run that assigns nothing and never digs below a height is undone by unwinding to that height. */
  lemma {:induction false} UnwindRestores<S, V>(states: seq<Shallow<S, V>>, steps: seq<Step<S, V>>, n: nat)
    requires ShallowRun(states, steps) && n <= |steps|
    requires forall i :: 0 <= i < |steps| ==> !steps[i].Assign?
    requires forall i :: 0 <= i < |states| ==> |states[i].bds| >= |states[0].bds|
    ensures var r := UnwindTo(states[n], |states[0].bds|);
      r.cells == states[0].cells && r.bds == states[0].bds
  {
    if n > 0 {
      UnwindRestores(states, steps, n - 1);
      var st, step, depth := states[n - 1], steps[n - 1], |states[0].bds|;
      match step
      case Bind(s, v) =>
        assert states[n].bds[..|st.bds|] == st.bds;
        assert states[n].cells[s := st.cells[s]] == st.cells;
        assert Unwind1(states[n]) == st;
      case Unwind =>
        assert states[n] == Unwind1(st);
      case PushFrame =>
        UnwindIgnoresMarks(st, states[n].marks, depth);
      case PopFrame =>
        UnwindIgnoresMarks(st, states[n].marks, depth);
      case ExitTo(k) =>
        UnwindIgnoresMarks(UnwindTo(st, st.marks[k]), states[n].marks, depth);
        UnwindTwice(st, st.marks[k], depth);
    }
  }

  /** Frame k is live from state i to state n. */
  ghost predicate Live<S, V>(states: seq<Shallow<S, V>>, i: nat, n: nat, k: nat) {
    forall j :: i <= j <= n && j < |states| ==> |states[j].marks| > k
  }

  /** As long as a frame is live it holds the height saved when it was pushed. */
  lemma {:induction false} FrameKept<S, V>(states: seq<Shallow<S, V>>, steps: seq<Step<S, V>>, n: nat, k: nat)
    requires ShallowRun(states, steps) && n <= |steps| && Live(states, 0, n, k)
    ensures states[n].marks[..k + 1] == states[0].marks[..k + 1]
  {
    hide UnwindTo;
    if n > 0 {
      FrameKept(states, steps, n - 1, k);
      var st := states[n - 1];
      match steps[n - 1]
      case Bind(_, _) =>
      case Assign(_, _) =>
      case Unwind =>
      case PushFrame =>
      case PopFrame =>
      case ExitTo(j) => ExitMarks(st, st.marks[j]);
    }
  }

  lemma {:induction false} ExitMarks<S, V>(st: Shallow<S, V>, depth: nat)
    ensures UnwindTo(st, depth).marks == st.marks
    decreases |st.bds|
  {
    if |st.bds| > depth { ExitMarks(Unwind1(st), depth); }
  }

  /**
   A non-local exit: a frame is pushed, the run goes on without assignments, never below the bindings there were,
   and with the frame still live; leaving to the frame then undoes every binding made since it was pushed.
   */
  lemma ExitUndoes<S, V>(states: seq<Shallow<S, V>>, steps: seq<Step<S, V>>)
    requires ShallowRun(states, steps) && |steps| >= 1 && steps[0] == PushFrame
    requires Live(states, 1, |steps|, |states[0].marks|)
    requires forall i :: 0 <= i < |steps| ==> !steps[i].Assign?
    requires forall i :: 0 <= i < |states| ==> |states[i].bds| >= |states[0].bds|
    ensures var k := |states[0].marks|;
      ShallowStep(states[|steps|], ExitTo(k)) == Shallow(states[0].cells, states[0].bds, states[0].marks + [|states[0].bds|])
  {
    hide UnwindTo;
    var n, k, depth := |steps|, |states[0].marks|, |states[0].bds|;
    var st := states[n];
    assert ShallowRun(states[1..], steps[1..]) by { RunTail(states, steps); }
    FrameKept(states[1..], steps[1..], n - 1, k);
    assert st.marks[..k + 1] == states[0].marks + [depth];
    assert st.marks[k] == st.marks[..k + 1][k] == depth;
    UnwindRestores(states, steps, n);
    ExitMarks(st, depth);
  }

  lemma RunTail<S, V>(states: seq<Shallow<S, V>>, steps: seq<Step<S, V>>)
    requires ShallowRun(states, steps) && |steps| >= 1
    ensures ShallowRun(states[1..], steps[1..])
  {
  }

  // ---------- the stacks in memory ----------

  class Symbol<V> {
    var dbind: V

    constructor (value: V)
      ensures dbind == value
    {
      dbind := value;
    }
  }

  /** bind_stack, frame_stack and their top pointers; of a frame only frs_bds_top is kept. */
  class Stacks<V> {
    const bindStack: array<Saved<Symbol<V>, V>>
    const bdsLimit: int
    var bdsTop: int
    const frameStack: array<int>
    const frsLimit: int
    var frsTop: int
    ghost const symbols: set<Symbol<V>>

    ghost predicate Valid()
      reads this, bindStack, frameStack
    {
      && -1 <= bdsTop <= bdsLimit < bindStack.Length
      && -1 <= frsTop < frsLimit <= frameStack.Length
      && (forall i :: 0 <= i <= bdsTop ==> bindStack[i].sym in symbols)
      && (forall i :: 0 <= i <= frsTop ==> -1 <= frameStack[i])
    }

    /** The state of the shallow binding machine that memory holds. */
    ghost function State(): Shallow<Symbol<V>, V>
      requires Valid()
      reads this, bindStack, frameStack, symbols
    {
      Shallow(map s | s in symbols :: s.dbind,
              bindStack[..bdsTop + 1],
              seq(frsTop + 1, i requires 0 <= i <= frsTop && Valid() reads this, bindStack, frameStack => frameStack[i] + 1))
    }

    constructor (bindSlots: nat, frameSlots: nat, filler: Saved<Symbol<V>, V>, ghost interned: set<Symbol<V>>)
      requires bindSlots >= 1 && frameSlots >= 1
      ensures Valid() && symbols == interned && bdsLimit == bindSlots - 1 && frsLimit == frameSlots
      ensures fresh(bindStack) && fresh(frameStack)
      ensures State().bds == [] && State().marks == []
    {
      bindStack := new Saved<Symbol<V>, V>[bindSlots](_ => filler);
      bdsLimit := bindSlots - 1;
      bdsTop := -1;
      frameStack := new int[frameSlots](_ => 0);
      frsLimit := frameSlots;
      frsTop := -1;
      symbols := interned;
    }

    /** bds_check and bds_bind; false is the bind stack overflow. */
    method Bind(sym: Symbol<V>, val: V) returns (ok: bool)
      requires Valid() && sym in symbols
      modifies this`bdsTop, bindStack, sym
      ensures Valid() && ok == (old(bdsTop) < bdsLimit)
      ensures State() == if ok then ShallowStep(old(State()), Step.Bind(sym, val)) else old(State())
    {
      ok := bdsTop < bdsLimit;
      if ok {
        bdsTop := bdsTop + 1;
        bindStack[bdsTop] := Saved(sym, sym.dbind);
        sym.dbind := val;
      }
    }

    /** Assignment to a special variable. */
    method Assign(sym: Symbol<V>, val: V)
      requires Valid() && sym in symbols
      modifies sym
      ensures Valid() && State() == ShallowStep(old(State()), Step.Assign(sym, val))
    {
      sym.dbind := val;
    }

    /** bds_unwind1. */
    method UnwindOne()
      requires Valid() && bdsTop >= 0
      modifies this`bdsTop, symbols
      ensures Valid() && State() == Unwind1(old(State()))
    {
      var top := bindStack[bdsTop];
      top.sym.dbind := top.val;
      bdsTop := bdsTop - 1;
    }

    /** frs_push; on overflow the frame counter has moved past the limit and frs_overflow takes over. */
    method PushFrame() returns (ok: bool)
      requires Valid()
      modifies this`frsTop, frameStack
      ensures ok == (old(frsTop) + 1 < frsLimit)
      ensures frsTop == old(frsTop) + 1
      ensures ok ==> Valid() && State() == ShallowStep(old(State()), Step.PushFrame)
      ensures !ok ==> frameStack[..] == old(frameStack[..])
    {
      ghost var before := State();
      frsTop := frsTop + 1;
      ok := frsTop < frsLimit;
      if ok {
        frameStack[frsTop] := bdsTop;
        assert State().marks == before.marks + [bdsTop + 1];
      }
    }

    /** frs_pop. */
    method PopFrame()
      requires Valid() && frsTop >= 0
      modifies this`frsTop
      ensures Valid() && State() == ShallowStep(old(State()), Step.PopFrame)
    {
      frsTop := frsTop - 1;
    }

    /** Unwinding one by one to the height saved in a frame, which becomes the top frame. */
    method ExitTo(frame: nat)
      requires Valid() && frame <= frsTop
      modifies this`bdsTop, this`frsTop, symbols
      ensures Valid() && State() == ShallowStep(old(State()), Step.ExitTo(frame))
    {
      var target := frameStack[frame];
      ghost var start := State();
      while bdsTop > target
        invariant Valid() && frame <= frsTop == old(frsTop)
        invariant UnwindTo(State(), target + 1) == UnwindTo(start, target + 1)
        invariant State().marks == start.marks
        decreases bdsTop
      {
        UnwindOne();
      }
      frsTop := frame;
    }
  }
}
