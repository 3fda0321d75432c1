/**
 Signals passed through one word of shared memory. Senders set a bit, the receiver tests and clears bits;
 setting and clearing load the word, change it and store it back, and other processes may run in between.
 */
module SignalMailbox {

  const SIGINT: bv32 := 2
  const SIGTERM: bv32 := 15

  /** signal_mask. */
  function Mask(n: bv32): bv32
    requires n < 32
  {
    1 << n
  }

  predicate Readable(word: bv32, n: bv32)
    requires n < 32
  {
    word & Mask(n) != 0
  }

  /** The word with the bit of n set, and with it cleared. */
  function WithBit(word: bv32, n: bv32): bv32
    requires n < 32
  {
    word | Mask(n)
  }

  function WithoutBit(word: bv32, n: bv32): bv32
    requires n < 32
  {
    word & !Mask(n)
  }

  /** Signal n is the bit of the word with n bits below it. */
  lemma ReadableIsBit(word: bv32, n: bv32)
    requires n < 32
    ensures Readable(word, n) <==> (word >> n) & 1 == 1
  {
  }

  type Signal = n: bv32 | n < 32

  /** The two read-modify-write operations on the word. */
  datatype Update = Send(sig: Signal) | ClearOne(sig: Signal)

  function Updated(u: Update, word: bv32): bv32 {
    match u
    case Send(n) => WithBit(word, n)
    case ClearOne(n) => WithoutBit(word, n)
  }

  lemma MasksApart(m: bv32, n: bv32)
    requires m < 32 && n < 32 && m != n
    ensures Mask(m) & Mask(n) == 0
  {
  }

  lemma OtherBits(w: bv32, a: bv32, b: bv32)
    requires a & b == 0
    ensures (w | a) & b == w & b && (w & !a) & b == w & b
  {
  }

  lemma SetOwn(word: bv32, n: bv32)
    requires n < 32
    ensures Readable(WithBit(word, n), n)
  {
  }

  lemma ClearOwn(word: bv32, n: bv32)
    requires n < 32
    ensures !Readable(WithoutBit(word, n), n)
  {
  }

  lemma SetOther(word: bv32, m: bv32, n: bv32)
    requires m < 32 && n < 32 && m != n
    ensures Readable(WithBit(word, m), n) <==> Readable(word, n)
  {
    MasksApart(m, n);
    OtherBits(word, Mask(m), Mask(n));
  }

  lemma ClearOther(word: bv32, m: bv32, n: bv32)
    requires m < 32 && n < 32 && m != n
    ensures Readable(WithoutBit(word, m), n) <==> Readable(word, n)
  {
    MasksApart(m, n);
    OtherBits(word, Mask(m), Mask(n));
  }

  lemma NothingInZero(n: bv32)
    requires n < 32
    ensures !Readable(0, n)
  {
  }

  /** Sending or clearing one signal does that to the one bit and leaves all others. */
  lemma UpdatedBits(u: Update, word: bv32, n: Signal)
    ensures Readable(Updated(u, word), n) <==>
            match u case Send(m) => Readable(word, n) || m == n case ClearOne(m) => Readable(word, n) && m != n
  {
    hide Readable, WithBit, WithoutBit;
    match u
    case Send(m) =>
      if m == n { SetOwn(word, n); } else { SetOther(word, m, n); }
    case ClearOne(m) =>
      if m == n { ClearOwn(word, n); } else { ClearOther(word, m, n); }
  }

  // ---------- the handlers, each run by itself ----------

  class SharedMemory {
    var initialised: bool
    var word: bv32

    constructor (mapped: bool)
      ensures initialised == mapped && word == 0
    {
      initialised := mapped;
      word := 0;
    }

    /** What winkill does once it has opened the mapping. */
    method SendSignal(n: Signal)
      modifies this`word
      ensures word == Updated(Send(n), old(word))
      ensures forall k: Signal :: Readable(word, k) <==> Readable(old(word), k) || k == n
    {
      hide Readable, WithBit;
      word := WithBit(word, n);
      forall k: Signal ensures Readable(word, k) <==> Readable(old(word), k) || k == n {
        UpdatedBits(Send(n), old(word), k);
      }
    }

    /** An interrupt is reported before a termination. */
    method ReadSharedMemory() returns (r: int)
      ensures r == 1 <==> initialised && Readable(word, SIGINT)
      ensures r == 2 <==> initialised && Readable(word, SIGTERM) && !Readable(word, SIGINT)
      ensures r == 0 || r == 1 || r == 2
      ensures r == 1 <==> initialised && word & 4 != 0
      ensures r == 2 <==> initialised && word & 0x8000 != 0 && word & 4 == 0
    {
      assert Mask(SIGINT) == 4 && Mask(SIGTERM) == 0x8000;
      if !initialised { return 0; }
      if word & Mask(SIGINT) != 0 { return 1; }
      if word & Mask(SIGTERM) != 0 { return 2; }
      r := 0;
    }

    method ReadSmSigterm() returns (r: int)
      ensures r == if initialised && Readable(word, SIGTERM) then 1 else 0
    {
      if !initialised { return 0; }
      if word & Mask(SIGTERM) != 0 { return 1; }
      r := 0;
    }

    method ReadSmSigint() returns (r: int)
      ensures r == if initialised && Readable(word, SIGINT) then 1 else 0
    {
      if !initialised { return 0; }
      if word & Mask(SIGINT) != 0 { return 1; }
      r := 0;
    }

    method ResetSharedMemory()
      modifies this`word
      ensures initialised ==> forall n: Signal :: !Readable(word, n)
      ensures !initialised ==> word == old(word)
    {
      if !initialised { return; }
      word := 0;
      forall n: Signal ensures !Readable(word, n) { NothingInZero(n); }
    }

    /** Clears the one signal and leaves every other as it was. */
    method ResetSmSigint()
      modifies this`word
      ensures initialised ==> word == Updated(ClearOne(SIGINT), old(word))
      ensures initialised ==> forall n: Signal :: Readable(word, n) <==> Readable(old(word), n) && n != SIGINT
      ensures !initialised ==> word == old(word)
    {
      hide Readable, WithoutBit;
      if !initialised { return; }
      word := WithoutBit(word, SIGINT);
      forall n: Signal ensures Readable(word, n) <==> Readable(old(word), n) && n != SIGINT {
        UpdatedBits(ClearOne(SIGINT), old(word), n);
      }
    }

    method ResetSmSigterm()
      modifies this`word
      ensures initialised ==> word == Updated(ClearOne(SIGTERM), old(word))
      ensures initialised ==> forall n: Signal :: Readable(word, n) <==> Readable(old(word), n) && n != SIGTERM
      ensures !initialised ==> word == old(word)
    {
      hide Readable, WithoutBit;
      if !initialised { return; }
      word := WithoutBit(word, SIGTERM);
      forall n: Signal ensures Readable(word, n) <==> Readable(old(word), n) && n != SIGTERM {
        UpdatedBits(ClearOne(SIGTERM), old(word), n);
      }
    }
  }

  // ---------- interleaved runs ----------

  /** An update that has loaded the word and not stored it yet. */
  datatype Pending = Pending(update: Update, loaded: bv32)

  datatype Memory = Memory(word: bv32, pending: map<nat, Pending>)

  /** Process p loads the word for an update; p stores its result; the receiver stores 0. */
  datatype Step = Load(p: nat, update: Update) | Store(p: nat) | ClearAll

  predicate Enabled(m: Memory, s: Step) {
    match s
    case Load(p, _) => p !in m.pending
    case Store(p) => p in m.pending
    case ClearAll => true
  }

  function After(m: Memory, s: Step): Memory
    requires Enabled(m, s)
  {
    match s
    case Load(p, u) => m.(pending := m.pending[p := Pending(u, m.word)])
    case Store(p) => Memory(Updated(m.pending[p].update, m.pending[p].loaded), m.pending - {p})
    case ClearAll => m.(word := 0)
  }

  ghost predicate Run(states: seq<Memory>, steps: seq<Step>) {
    && |states| == |steps| + 1 && states[0] == Memory(0, map[])
    && forall i :: 0 <= i < |steps| ==> Enabled(states[i], steps[i]) && states[i + 1] == After(states[i], steps[i])
  }

  /** Step i stores the sending of n. */
  predicate Sends(m: Memory, s: Step, n: Signal) {
    s.Store? && s.p in m.pending && m.pending[s.p].update == Send(n)
  }

  /** Step s takes n out of the word on purpose. */
  predicate Resets(m: Memory, s: Step, n: Signal) {
    s.ClearAll? || (s.Store? && s.p in m.pending && m.pending[s.p].update == ClearOne(n))
  }

  ghost predicate SentBefore(states: seq<Memory>, steps: seq<Step>, t: nat, n: Signal)
    requires |states| == |steps| + 1 && t <= |steps|
  {
    exists i :: 0 <= i < t && Sends(states[i], steps[i], n)
  }

  /** In every interleaving a signal can be read only if some sender has sent it, and so for every value in flight. */
  lemma {:induction false} ReadableWasSent(states: seq<Memory>, steps: seq<Step>, t: nat, n: Signal)
    requires Run(states, steps) && t <= |steps|
    ensures Readable(states[t].word, n) ==> SentBefore(states, steps, t, n)
    ensures forall p | p in states[t].pending :: Readable(states[t].pending[p].loaded, n) ==> SentBefore(states, steps, t, n)
  {
    hide Readable, Updated;
    if t == 0 {
      NothingInZero(n);
    } else {
      ReadableWasSent(states, steps, t - 1, n);
      var m, s := states[t - 1], steps[t - 1];
      assert SentBefore(states, steps, t - 1, n) ==> SentBefore(states, steps, t, n);
      match s
      case Load(_, _) =>
      case ClearAll => NothingInZero(n);
      case Store(p) =>
        UpdatedBits(m.pending[p].update, m.pending[p].loaded, n);
        assert m.pending[p].update == Send(n) ==> Sends(m, s, n);
    }
  }

  /** No other process is between its load and its store when a step writes the word. */
  ghost predicate Exclusive(states: seq<Memory>, steps: seq<Step>)
    requires |states| == |steps| + 1
  {
    forall i :: 0 <= i < |steps| ==> WritesAlone(states[i], steps[i])
  }

  ghost predicate WritesAlone(m: Memory, s: Step) {
    match s
    case Load(_, _) => true
    case Store(p) => m.pending.Keys <= {p}
    case ClearAll => m.pending == map[]
  }

  /** Without overlaps every value in flight is the current word. */
  lemma {:induction false} NothingStale(states: seq<Memory>, steps: seq<Step>, t: nat)
    requires Run(states, steps) && Exclusive(states, steps) && t <= |steps|
    ensures forall p | p in states[t].pending :: states[t].pending[p].loaded == states[t].word
  {
    if t > 0 {
      NothingStale(states, steps, t - 1);
      assert WritesAlone(states[t - 1], steps[t - 1]);
    }
  }

  /** Without overlaps a sent signal stays readable until a step resets it. */
  lemma {:induction false} SentStaysReadable(states: seq<Memory>, steps: seq<Step>, i: nat, t: nat, n: Signal)
    requires Run(states, steps) && Exclusive(states, steps) && i < t <= |steps|
    requires Sends(states[i], steps[i], n)
    requires forall j :: i < j < t ==> !Resets(states[j], steps[j], n)
    ensures Readable(states[t].word, n)
  {
    hide Readable, Updated;
    var m, s := states[t - 1], steps[t - 1];
    if t - 1 > i {
      SentStaysReadable(states, steps, i, t - 1, n);
      assert !Resets(m, s, n);
    }
    NothingStale(states, steps, t - 1);
    match s
    case Load(_, _) =>
    case ClearAll =>
    case Store(p) => UpdatedBits(m.pending[p].update, m.pending[p].loaded, n);
  }

  /** n was sent at step i and not reset since. */
  ghost predicate SentAndKept(states: seq<Memory>, steps: seq<Step>, i: nat, t: nat, n: Signal)
    requires |states| == |steps| + 1 && t <= |steps|
  {
    i < t && Sends(states[i], steps[i], n) && forall j :: i < j < t ==> !Resets(states[j], steps[j], n)
  }

  lemma {:induction false} ReadableWasKept(states: seq<Memory>, steps: seq<Step>, t: nat, n: Signal)
    requires Run(states, steps) && Exclusive(states, steps) && t <= |steps|
    ensures Readable(states[t].word, n) ==> exists i: nat :: SentAndKept(states, steps, i, t, n)
  {
    hide Readable, Updated;
    NothingInZero(n);
    if t > 0 && Readable(states[t].word, n) {
      var m, s := states[t - 1], steps[t - 1];
      NothingStale(states, steps, t - 1);
      if s.Store? { UpdatedBits(m.pending[s.p].update, m.pending[s.p].loaded, n); }
      if Sends(m, s, n) {
        assert SentAndKept(states, steps, t - 1, t, n);
      } else {
        ReadableWasKept(states, steps, t - 1, n);
        var i: nat :| SentAndKept(states, steps, i, t - 1, n);
        assert !Resets(m, s, n);
        assert SentAndKept(states, steps, i, t, n);
      }
    }
  }

  /** Without overlaps a signal is readable exactly when it was sent and not reset since. */
  lemma ReadableExactly(states: seq<Memory>, steps: seq<Step>, t: nat, n: Signal)
    requires Run(states, steps) && Exclusive(states, steps) && t <= |steps|
    ensures Readable(states[t].word, n) <==> exists i: nat :: SentAndKept(states, steps, i, t, n)
  {
    hide Readable;
    ReadableWasKept(states, steps, t, n);
    if i: nat :| SentAndKept(states, steps, i, t, n) {
      SentStaysReadable(states, steps, i, t, n);
    }
  }

  // ---------- what exactly makes a signal change its state behind its senders' and resetters' backs ----------

  /** The step changes n on purpose: away from readable, or away from cleared. */
  predicate Changes(m: Memory, s: Step, n: Signal, readable: bool) {
    if readable then Resets(m, s, n) else Sends(m, s, n)
  }

  /** Process p is about to store a word in which n is not as given: a word from before, as p's own update is about another signal. */
  predicate Stale(m: Memory, p: nat, n: Signal, readable: bool) {
    && p in m.pending
    && m.pending[p].update != (if readable then Send(n) else ClearOne(n))
    && Readable(m.pending[p].loaded, n) != readable
  }

  ghost predicate Unchanged(states: seq<Memory>, steps: seq<Step>, i: nat, t: nat, n: Signal, readable: bool)
    requires |states| == |steps| + 1 && t <= |steps|
  {
    forall j :: i <= j < t ==> !Changes(states[j], steps[j], n, readable)
  }

  ghost predicate StoresIn(steps: seq<Step>, i: nat, t: nat, p: nat)
    requires t <= |steps|
  {
    exists j :: i <= j < t && steps[j] == Store(p)
  }

  /** Nothing stale at i is stored before t. */
  ghost predicate NothingStaleStored(states: seq<Memory>, steps: seq<Step>, i: nat, t: nat, n: Signal, readable: bool)
    requires |states| == |steps| + 1 && i <= t <= |steps|
  {
    forall p: nat :: Stale(states[i], p, n, readable) ==> !StoresIn(steps, i, t, p)
  }

  lemma {:induction false} PendingUntilStored(states: seq<Memory>, steps: seq<Step>, i: nat, t: nat, p: nat)
    requires Run(states, steps) && i <= t <= |steps|
    requires p in states[i].pending && !StoresIn(steps, i, t, p)
    ensures p in states[t].pending && states[t].pending[p] == states[i].pending[p]
  {
    hide Updated;
    if i < t {
      assert forall j :: i <= j < t - 1 && steps[j] == Store(p) ==> StoresIn(steps, i, t, p);
      PendingUntilStored(states, steps, i, t - 1, p);
      assert steps[t - 1] != Store(p);
    }
  }

  /** As long as nothing stale is stored the signal stays as it is, and nothing else becomes stale. */
  lemma {:induction false} StaysWithoutStale(states: seq<Memory>, steps: seq<Step>, i: nat, t: nat, n: Signal, readable: bool)
    requires Run(states, steps) && i <= t <= |steps| && Unchanged(states, steps, i, t, n, readable)
    requires Readable(states[i].word, n) == readable && NothingStaleStored(states, steps, i, t, n, readable)
    ensures Readable(states[t].word, n) == readable
    ensures forall p: nat :: Stale(states[t], p, n, readable) ==> Stale(states[i], p, n, readable)
  {
    hide Readable, Updated;
    if i < t {
      var m, s := states[t - 1], steps[t - 1];
      assert forall p: nat :: StoresIn(steps, i, t - 1, p) ==> StoresIn(steps, i, t, p);
      StaysWithoutStale(states, steps, i, t - 1, n, readable);
      match s
      case Load(_, _) =>
      case ClearAll => NothingInZero(n);
      case Store(p) =>
        assert StoresIn(steps, i, t, p);
        UpdatedBits(m.pending[p].update, m.pending[p].loaded, n);
    }
  }

  /** The first store of a process that was stale at i changes the signal. */
  lemma {:induction false} StaleStoreChanges(states: seq<Memory>, steps: seq<Step>, i: nat, t: nat, n: Signal, readable: bool, p: nat)
    requires Run(states, steps) && i <= t <= |steps| && Unchanged(states, steps, i, t, n, readable)
    requires Stale(states[i], p, n, readable) && StoresIn(steps, i, t, p)
    ensures exists j :: i <= j <= t && Readable(states[j].word, n) != readable
  {
    hide Readable, Updated;
    if StoresIn(steps, i, t - 1, p) {
      StaleStoreChanges(states, steps, i, t - 1, n, readable, p);
    } else {
      PendingUntilStored(states, steps, i, t - 1, p);
      var m := states[t - 1];
      assert steps[t - 1] == Store(p);
      UpdatedBits(m.pending[p].update, m.pending[p].loaded, n);
      assert Readable(states[t].word, n) != readable;
    }
  }

  /**
   In any run at all: while nobody changes n on purpose, n stays as it is at every moment exactly when no update
   that was in flight at the start with n the other way is stored.
   */
  lemma StaysExactly(states: seq<Memory>, steps: seq<Step>, i: nat, t: nat, n: Signal, readable: bool)
    requires Run(states, steps) && i <= t <= |steps| && Unchanged(states, steps, i, t, n, readable)
    requires Readable(states[i].word, n) == readable
    ensures (forall j :: i <= j <= t ==> Readable(states[j].word, n) == readable) <==>
            NothingStaleStored(states, steps, i, t, n, readable)
  {
    hide Readable;
    if NothingStaleStored(states, steps, i, t, n, readable) {
      forall j | i <= j <= t ensures Readable(states[j].word, n) == readable {
        assert forall p: nat :: StoresIn(steps, i, j, p) ==> StoresIn(steps, i, t, p);
        StaysWithoutStale(states, steps, i, j, n, readable);
      }
    } else {
      var p: nat :| Stale(states[i], p, n, readable) && StoresIn(steps, i, t, p);
      StaleStoreChanges(states, steps, i, t, n, readable, p);
    }
  }

  /** A sent signal stays readable until it is reset exactly when no update of another signal that loaded a word without it is stored. */
  lemma SentStaysExactly(states: seq<Memory>, steps: seq<Step>, i: nat, t: nat, n: Signal)
    requires Run(states, steps) && i < t <= |steps| && Sends(states[i], steps[i], n)
    requires forall j :: i < j < t ==> !Resets(states[j], steps[j], n)
    ensures (forall j :: i < j <= t ==> Readable(states[j].word, n)) <==>
            NothingStaleStored(states, steps, i + 1, t, n, true)
  {
    hide Readable, Updated;
    UpdatedBits(Send(n), states[i].pending[steps[i].p].loaded, n);
    StaysExactly(states, steps, i + 1, t, n, true);
  }

  /** A cleared signal stays cleared until it is sent exactly when no update of another signal that loaded a word with it is stored. */
  lemma ClearedStaysExactly(states: seq<Memory>, steps: seq<Step>, i: nat, t: nat, n: Signal)
    requires Run(states, steps) && i < t <= |steps| && Resets(states[i], steps[i], n)
    requires forall j :: i < j < t ==> !Sends(states[j], steps[j], n)
    ensures (forall j :: i < j <= t ==> !Readable(states[j].word, n)) <==>
            NothingStaleStored(states, steps, i + 1, t, n, false)
  {
    hide Readable, Updated;
    if steps[i].Store? { UpdatedBits(ClearOne(n), states[i].pending[steps[i].p].loaded, n); }
    NothingInZero(n);
    StaysExactly(states, steps, i + 1, t, n, false);
  }

  /** Two sends that overlap lose a signal: both load 0, and the second store overwrites the first. */
  lemma OverlapLosesSignal(a: Signal, b: Signal, p: nat, q: nat) returns (states: seq<Memory>, steps: seq<Step>)
    requires a != b && p != q
    ensures Run(states, steps) && |steps| == 4
    ensures Sends(states[2], steps[2], a) && Readable(states[3].word, a)
    ensures !Resets(states[3], steps[3], a) && !Readable(states[4].word, a)
    ensures Stale(states[3], q, a, true) && steps[3] == Store(q)
  {
    hide Readable, Updated;
    var start := Memory(0, map[]);
    steps := [Load(p, Send(a)), Load(q, Send(b)), Store(p), Store(q)];
    var s1 := After(start, steps[0]);
    var s2 := After(s1, steps[1]);
    var s3 := After(s2, steps[2]);
    var s4 := After(s3, steps[3]);
    states := [start, s1, s2, s3, s4];
    NothingInZero(a);
    UpdatedBits(Send(a), 0, a);
    UpdatedBits(Send(b), 0, a);
  }

  /** A send that overlaps a reset brings a cleared signal back. */
  lemma OverlapRevivesSignal(a: Signal, b: Signal, p: nat, q: nat) returns (states: seq<Memory>, steps: seq<Step>)
    requires a != b && p != q
    ensures Run(states, steps) && |steps| == 5
    ensures steps[3] == ClearAll && !Readable(states[4].word, a)
    ensures !Sends(states[4], steps[4], a) && Readable(states[5].word, a)
    ensures Stale(states[4], q, a, false) && steps[4] == Store(q)
  {
    hide Readable, Updated;
    var start := Memory(0, map[]);
    steps := [Load(p, Send(a)), Store(p), Load(q, Send(b)), ClearAll, Store(q)];
    var s1 := After(start, steps[0]);
    var s2 := After(s1, steps[1]);
    var s3 := After(s2, steps[2]);
    var s4 := After(s3, steps[3]);
    var s5 := After(s4, steps[4]);
    states := [start, s1, s2, s3, s4, s5];
    NothingInZero(a);
    UpdatedBits(Send(a), 0, a);
    UpdatedBits(Send(b), s2.word, a);
  }
}
