/**
 The translated Cantor routines as they run on variable frames: every routine opens a frame over the
 frames it is given, its block opens one more and writes results through to it, and recursive calls
 start again from the base dictionary.

 A routine without a modifies clause leaves every dictionary that existed before the call as it was.
 */
module CantorOnFrames {
  import opened CantorSet
  import opened CantorFunction
  import opened Wrappers
  import opened ScopedFrames

  datatype Value =
    | Nothing
    | Int(i: int)
    | Num(x: real)
    | Args(args: seq<int>)
    | Points(points: seq<real>)

  /** The variable names the routines use, and all others. */
  datatype Name = X | N | Ret | K | I | U | W | P | R | S | Q | L | Seq | Fpprec | Other(name: string)

  type Scope = Frame<Name, Value>

  // ---------- the three ways the routines reach a variable ----------

  /** The frame a routine opens: its parameters, then its local variables. */
  method Opened(v: Scope, parameters: map<Name, Value>, locals: map<Name, Value>) returns (w: Scope)
    requires v.Valid()
    ensures fresh(w) && w.Valid() && w.sub == v && w.mapping == parameters + locals
  {
    w := new Frame(map[], v);
    w.Ins(parameters);
    w.Ins(locals);
  }

  /** Reading a variable of the routine's own frame. */
  function Own(w: Scope, key: Name): Value
    requires w.Valid() && key in w.mapping
    reads w.footprint
    ensures Own(w, key) == w.mapping[key]
  {
    w.Get(key).value
  }

  /** Reading, in a block, a variable of the routine the block belongs to. */
  function Through(b: Scope, w: Scope, key: Name): Value
    requires b.Valid() && b.sub == w && key !in b.mapping && key in w.mapping
    reads b.footprint, w
    ensures Through(b, w, key) == w.mapping[key]
  {
    b.OneBelow(key);
    b.Get(key).value
  }

  /** Assigning a variable of the routine's own frame. */
  method SetOwn(w: Scope, key: Name, value: Value)
    requires w.Valid() && key in w.mapping
    modifies w
    ensures w.mapping == old(w.mapping)[key := value]
  {
    w.Set(key, value);
  }

  /** Assigning, in a block, a variable of the routine the block belongs to. */
  method SetThrough(b: Scope, w: Scope, key: Name, value: Value)
    requires b.Valid() && b.sub == w && key !in b.mapping && key in w.mapping
    modifies w
    ensures w.mapping == old(w.mapping)[key := value]
  {
    b.OneBelow(key);
    b.Set(key, value);
  }

  /** Assigning a variable that the routine does not bind: the frames it was given are written. */
  method SetOutside(w: Scope, v: Scope, key: Name, value: Value)
    requires w.Valid() && w.sub == v && key !in w.mapping
    modifies v.Owner(key)
    ensures old(v.Owner(key)).mapping == old(v.Owner(key).mapping)[key := value]
    ensures v.Owner(key) == old(v.Owner(key))
  {
    w.Set(key, value);
  }

  // ---------- cantorr2 ----------

  lemma CantorCases(x: real, n: int)
    requires n > 0 && x != 0.0 && x != 1.0
    ensures 0.0 < x <= 1.0 / 3.0 ==> Cantor(x, n) == Cantor(3.0 * x, n - 1) / 2.0
    ensures 1.0 / 3.0 < x < 2.0 / 3.0 ==> Cantor(x, n) == 1.0 / 2.0
    ensures 2.0 / 3.0 <= x < 1.0 ==> Cantor(x, n) == (1.0 + Cantor(3.0 * x - 2.0, n - 1)) / 2.0
    ensures x < 0.0 || x > 1.0 ==> Cantor(x, n) == 0.0
  {
  }

  method Cantorr2(x: real, n: int, v: Scope, base: Scope) returns (r: real)
    requires v.Valid() && base.Valid()
    ensures r == Cantor(x, n)
    decreases n, 1
  {
    hide Frame.Visible, Frame.Layers, Frame.Owner, Frame.Get;
    var w := Opened(v, map[X := Num(x), N := Int(n)], map[Ret := Num(0.0), K := Int(0)]);
    if Own(w, X) == Num(0.0) {
      return 0.0;
    }
    if Own(w, X) == Num(1.0) {
      return 1.0;
    }
    if Own(w, N).i > 0 {
      r := Block17340(w, base, x, n);
    } else {
      r := Own(w, X).x;
    }
  }

  method Block17340(w: Scope, base: Scope, ghost x: real, ghost n: int) returns (r: real)
    requires w.Valid() && base.Valid()
    requires Lookup(w.mapping, X) == Some(Num(x)) && Lookup(w.mapping, N) == Some(Int(n))
    requires Lookup(w.mapping, Ret) == Some(Num(0.0))
    requires n > 0 && x != 0.0 && x != 1.0
    modifies w
    ensures r == Cantor(x, n)
    decreases n, 0
  {
    hide Cantor, Frame.Visible, Frame.Layers, Frame.Owner, Frame.Get;
    CantorCases(x, n);
    var b := new Frame(map[], w);
    var vx, vn := Through(b, w, X).x, Through(b, w, N).i;
    if vx > 0.0 && vx <= 1.0 / 3.0 {
      var c := Cantorr2(3.0 * vx, vn + -1, base, base);
      SetThrough(b, w, Ret, Num(c));
    }
    if 1.0 / 3.0 < vx && vx < 2.0 / 3.0 {
      SetThrough(b, w, Ret, Num(1.0));
    }
    if vx >= 2.0 / 3.0 && vx < 1.0 {
      var c := Cantorr2(3.0 * vx + -2.0, vn + -1, base, base);
      SetThrough(b, w, Ret, Num(1.0 + c));
    }
    r := Through(b, w, Ret).x / 2.0;
  }

  // ---------- cantorrd ----------

  lemma IndicatorCases(x: real, n: int)
    requires x != 0.0 && x != 1.0
    ensures n <= 0 ==> Indicator(x, n) == 1
    ensures n > 0 && 0.0 < Frac(x) <= 1.0 / 3.0 ==> Indicator(x, n) == Indicator(3.0 * Frac(x), n - 1)
    ensures n > 0 && 2.0 / 3.0 <= Frac(x) ==> Indicator(x, n) == Indicator(3.0 * Frac(x) - 2.0, n - 1)
    ensures n > 0 && (Frac(x) == 0.0 || 1.0 / 3.0 < Frac(x) < 2.0 / 3.0) ==> Indicator(x, n) == 0
  {
  }

  /** The number of levels: the first optional argument, else the variable fpprec. */
  ghost function Levels(args: seq<int>, v: Scope): Option<int>
    requires v.Valid()
    reads v.footprint
  {
    if args != [] then Some(args[0])
    else if v.Get(Fpprec).Some? && v.Get(Fpprec).value.Int? then Some(v.Get(Fpprec).value.i)
    else None
  }

  method Cantorrd(x: real, args: seq<int>, v: Scope, base: Scope) returns (r: int)
    requires v.Valid() && base.Valid() && Levels(args, v).Some?
    ensures r == Indicator(x, Levels(args, v).value)
    decreases Levels(args, v).value, 2
  {
    hide Indicator, Levels, Frame.Visible, Frame.Layers, Frame.Owner, Frame.Get;
    LevelsCases(args, v);
    var w := Opened(v, map[X := Num(x), N := Args(args)], map[Ret := Int(0)]);
    if Own(w, N).args == [] {
      w.FromBelow(Fpprec);
      SetOwn(w, N, w.Get(Fpprec).value);
    } else {
      SetOwn(w, N, Int(Own(w, N).args[0]));
    }
    r := CantorrdRest(w, base, x, Levels(args, v).value);
  }

  /** cantorrd from the point on where its number of levels is known. */
  method CantorrdRest(w: Scope, base: Scope, ghost x: real, ghost n: int) returns (r: int)
    requires w.Valid() && base.Valid()
    requires Lookup(w.mapping, X) == Some(Num(x)) && Lookup(w.mapping, N) == Some(Int(n))
    requires Lookup(w.mapping, Ret) == Some(Int(0))
    modifies w
    ensures r == Indicator(x, n)
    decreases n, 1
  {
    hide Indicator, Frac, Frame.Visible, Frame.Layers, Frame.Owner, Frame.Get;
    IndicatorEnds(n);
    if Own(w, X) == Num(0.0) {
      return 1;
    }
    if Own(w, X) == Num(1.0) {
      return 1;
    }
    SetOwn(w, X, Num(Frac(Own(w, X).x)));
    if Own(w, N).i > 0 {
      r := Block47665(w, base, x, n);
    } else {
      IndicatorCases(x, n);
      r := 1;
    }
  }

  lemma LevelsCases(args: seq<int>, v: Scope)
    requires v.Valid() && Levels(args, v).Some?
    ensures args == [] ==> v.Get(Fpprec) == Some(Int(Levels(args, v).value))
    ensures args != [] ==> Levels(args, v).value == args[0]
  {
  }

  lemma IndicatorEnds(n: int)
    ensures Indicator(0.0, n) == 1 && Indicator(1.0, n) == 1
  {
  }

  method Block47665(w: Scope, base: Scope, ghost x: real, ghost n: int) returns (r: int)
    requires w.Valid() && base.Valid()
    requires Lookup(w.mapping, X) == Some(Num(Frac(x))) && Lookup(w.mapping, N) == Some(Int(n))
    requires Lookup(w.mapping, Ret) == Some(Int(0))
    requires n > 0 && x != 0.0 && x != 1.0
    modifies w
    ensures r == Indicator(x, n)
    decreases n, 0
  {
    hide Indicator, Frac, Frame.Visible, Frame.Layers, Frame.Owner, Frame.Get;
    IndicatorCases(x, n);
    var b := new Frame(map[], w);
    var vx, vn := Through(b, w, X).x, Through(b, w, N).i;
    if vx > 0.0 && vx <= 1.0 / 3.0 {
      var c := Cantorrd(3.0 * vx, [vn + -1], base, base);
      SetThrough(b, w, Ret, Int(c));
    }
    if 1.0 / 3.0 < vx && vx < 2.0 / 3.0 {
      SetThrough(b, w, Ret, Int(0));
    }
    if 2.0 / 3.0 <= vx && vx < 1.0 {
      var c := Cantorrd(3.0 * vx + -2.0, [vn + -1], base, base);
      SetThrough(b, w, Ret, Int(c));
    }
    r := Through(b, w, Ret).i;
  }

  // ---------- gcantorseq ----------

  method Gcantorseq(u: real, w: real, p: real, r: real, n: int, v: Scope, base: Scope) returns (s: seq<real>)
    requires v.Valid() && base.Valid()
    ensures s == Endpoints(u, w, p, r, n)
    decreases n, 1
  {
    hide Endpoints, Frame.Visible, Frame.Layers, Frame.Owner, Frame.Get;
    EndpointsCase(u, w, p, r, n);
    var f := Opened(v, map[U := Num(u), W := Num(w), P := Num(p), R := Num(r), N := Int(n)], map[S := Nothing, Q := Nothing]);
    SetOwn(f, Q, Num((Own(f, U).x + Own(f, W).x) / 2.0));
    SetOwn(f, S, Points([Own(f, U).x, Own(f, W).x]));
    if Own(f, N).i > 1 {
      s := Block85290(f, base, u, w, p, r, n);
    } else {
      s := Own(f, S).points;
    }
  }

  method Block85290(f: Scope, base: Scope, ghost u: real, ghost w: real, ghost p: real, ghost r: real, ghost n: int)
    returns (s: seq<real>)
    requires f.Valid() && base.Valid() && n > 1
    requires Lookup(f.mapping, U) == Some(Num(u)) && Lookup(f.mapping, W) == Some(Num(w))
    requires Lookup(f.mapping, P) == Some(Num(p)) && Lookup(f.mapping, R) == Some(Num(r))
    requires Lookup(f.mapping, N) == Some(Int(n)) && Lookup(f.mapping, Q) == Some(Num((u + w) / 2.0))
    requires S in f.mapping
    modifies f
    ensures s == Endpoints(u, w, p, r, n)
    decreases n, 0
  {
    hide Endpoints, Frame.Visible, Frame.Layers, Frame.Owner, Frame.Get;
    ghost var q, pr := (u + w) / 2.0, p * r;
    EndpointsCase(u, w, p, r, n);
    var b := new Frame(map[], f);
    var vp, vq, vr, vn := Through(b, f, P).x, Through(b, f, Q).x, Through(b, f, R).x, Through(b, f, N).i;
    assert vp == p && vr == r && vq == q;
    assert vp * vr == pr;
    var left := Gcantorseq(Through(b, f, U).x, vq + -(vp / 2.0), vp * vr, vr, vn + -1, base, base);
    var right := Gcantorseq(vq + vp / 2.0, Through(b, f, W).x, vp * vr, vr, vn + -1, base, base);
    assert left == Endpoints(u, q - p / 2.0, pr, r, n - 1);
    assert right == Endpoints(q + p / 2.0, w, pr, r, n - 1);
    SetThrough(b, f, S, Points(left + right));
    s := Through(b, f, S).points;
  }

  // ---------- cantorri ----------

  /** Rounds the loop of cantorri starts from x on before it returns. */
  function Rounds(x: real, n: int): nat
    decreases n
  {
    if n <= 0 then 0 else if (3.0 * x).Floor == 1 then 1 else 1 + Rounds(Next(x), n - 1)
  }

  /** The loop runs through all rounds exactly when it meets no digit 1, else it ends with the round that meets the first. */
  lemma {:induction false} RoundsMeaning(x: real, n: nat)
    requires 0.0 <= x < 1.0
    ensures Rounds(x, n) <= n
    ensures DigitLoop(x, n) == 1 ==> Rounds(x, n) == n
    ensures DigitLoop(x, n) == 0 ==> Rounds(x, n) >= 1 && Digit(x, Rounds(x, n) - 1) == 1
    ensures forall k: nat | k < Rounds(x, n) - 1 :: Digit(x, k) != 1
    decreases n
  {
    hide Next, Digit;
    if n > 0 {
      WholeTail(x);
      if (3.0 * x).Floor != 1 {
        var y := Next(x);
        RoundsMeaning(y, n - 1);
        if Rounds(y, n - 1) >= 1 { TailShift(x, Rounds(y, n - 1) - 1); }
        forall k: nat | k < Rounds(x, n) - 1 ensures Digit(x, k) != 1 {
          if k > 0 { TailShift(x, k - 1); }
        }
      }
    }
  }

  /** The variables of cantorri when y is what is left of x. */
  ghost predicate CantorriFrame(w: Scope, v: Scope, n: int, y: real)
    reads w
  {
    && w.Valid() && w.sub == v
    && I !in w.mapping && Q in w.mapping
    && Lookup(w.mapping, N) == Some(Int(n))
    && Lookup(w.mapping, Ret) == Some(Int(1))
    && Lookup(w.mapping, X) == Some(Num(y))
  }

  /** One round of the loop, up to the test of the digit and past it. */
  method CantorriRound(w: Scope, v: Scope, i: int, ghost n: int, ghost y: real) returns (one: bool)
    requires CantorriFrame(w, v, n, y)
    modifies w, v.Owner(I)
    ensures v.Owner(I) == old(v.Owner(I)) && v.Owner(I).mapping == old(v.Owner(I).mapping)[I := Int(i)]
    ensures one == ((3.0 * y).Floor == 1)
    ensures w.Valid() && w.sub == v && Ret in w.mapping
    ensures !one ==> CantorriFrame(w, v, n, Next(y))
    ensures one ==> Lookup(w.mapping, X) == Some(Num(3.0 * y))
  {
    hide Frame.Visible, Frame.Layers, Frame.Owner, Frame.Get;
    SetOutside(w, v, I, Int(i));
    SetOwn(w, X, Num(3.0 * Own(w, X).x));
    SetOwn(w, Q, Int(Own(w, X).x.Floor));
    one := Own(w, Q) == Int(1);
    if !one {
      SetOwn(w, X, Num(Own(w, X).x + -(Own(w, Q).i as real)));
    }
  }

  /** What is left of y after n digits, which lies in [0, 1). */
  function Left(y: real, n: int): (z: real)
    ensures 0.0 <= z < 1.0
  {
    Tail(y, if n > 0 then n else 0)
  }

  /**
   The loop, from the point on where the frame holds y = mod(x, 1). It ends with what is left of y in x if it
   ran through, and with three times what was left before the digit 1 if it met one.
   */
  method CantorriLoop(w: Scope, v: Scope, ghost n: int, ghost y: real) returns (r: int)
    requires CantorriFrame(w, v, n, y) && 0.0 <= y < 1.0
    modifies w, v.Owner(I)
    ensures r == DigitLoop(y, n)
    ensures Lookup(w.mapping, X) == Some(Num(if r == 1 then Left(y, n) else 3.0 * Left(y, Rounds(y, n) - 1)))
    ensures v.Owner(I) == old(v.Owner(I))
    ensures v.Owner(I).mapping == CountedTo(old(v.Owner(I).mapping), I, Rounds(y, n))
  {
    hide DigitLoop, Rounds, Next, Tail, Frame.Visible, Frame.Layers, Frame.Owner, Frame.Get;
    ghost var z := y;
    var i := 1;
    LoopStep(y, n);
    WholeTail(y);
    while i < Own(w, N).i + 1
      invariant CantorriFrame(w, v, n, z) && v.Owner(I) == old(v.Owner(I))
      invariant 1 <= i <= (if n > 0 then n else 0) + 1 && z == Left(y, i - 1)
      invariant DigitLoop(y, n) == DigitLoop(z, n - i + 1)
      invariant Rounds(y, n) == i - 1 + Rounds(z, n - i + 1)
      invariant v.Owner(I).mapping == CountedTo(old(v.Owner(I).mapping), I, i - 1)
      decreases n + 1 - i
    {
      LoopStep(z, n - i + 1);
      var one := CantorriRound(w, v, i, n, z);
      if one {
        r := Block34784(w);
        return;
      }
      TailNext(y, i - 1);
      z := Next(z);
      i := i + 1;
    }
    LoopStep(z, n - i + 1);
    r := Own(w, Ret).i;
  }

  /** The bindings after a loop has counted name from 1 to rounds. */
  function CountedTo(m: map<Name, Value>, name: Name, rounds: nat): map<Name, Value> {
    if rounds == 0 then m else m[name := Int(rounds)]
  }

  /** The loop counter i is not bound by the routine, so it ends up in the frames the routine was given. */
  method Cantorri(x: real, n: int, v: Scope) returns (r: int)
    requires v.Valid()
    modifies v.Owner(I)
    ensures r == DigitIndicator(x, n)
    ensures v.Owner(I) == old(v.Owner(I))
    ensures v.Owner(I).mapping ==
            CountedTo(old(v.Owner(I).mapping), I, if x == 0.0 || x == 1.0 then 0 else Rounds(Frac(x), n))
  {
    hide Frac, DigitLoop, Rounds, Frame.Visible, Frame.Layers, Frame.Owner, Frame.Get;
    var w := Opened(v, map[X := Num(x), N := Int(n)], map[Ret := Int(1), Q := Nothing]);
    if Own(w, X) == Num(0.0) || Own(w, X) == Num(1.0) {
      return 1;
    }
    SetOwn(w, X, Num(Frac(Own(w, X).x)));
    r := CantorriLoop(w, v, n, Frac(x));
  }

  lemma LoopStep(x: real, n: int)
    ensures n <= 0 ==> DigitLoop(x, n) == 1 && Rounds(x, n) == 0
    ensures n > 0 && (3.0 * x).Floor == 1 ==> DigitLoop(x, n) == 0 && Rounds(x, n) == 1
    ensures n > 0 && (3.0 * x).Floor != 1 ==>
              DigitLoop(x, n) == DigitLoop(Next(x), n - 1) && Rounds(x, n) == 1 + Rounds(Next(x), n - 1)
  {
  }

  method Block34784(w: Scope) returns (r: int)
    requires w.Valid() && Ret in w.mapping
    modifies w
    ensures r == 0
    ensures w.mapping == old(w.mapping)[Ret := Int(0)]
  {
    var b := new Frame(map[], w);
    SetThrough(b, w, Ret, Int(0));
    r := Through(b, w, Ret).i;
  }

  // ---------- cantorseq ----------

  ghost predicate CantorseqFrame(w: Scope, v: Scope, n: int, s: seq<real>)
    reads w
  {
    && w.Valid() && w.sub == v
    && K !in w.mapping && L in w.mapping && R in w.mapping
    && Lookup(w.mapping, N) == Some(Int(n))
    && Lookup(w.mapping, Seq) == Some(Points(s))
  }

  method CantorseqRound(w: Scope, v: Scope, k: int, ghost n: int, ghost s: seq<real>)
    requires CantorseqFrame(w, v, n, s)
    modifies w, v.Owner(K)
    ensures v.Owner(K) == old(v.Owner(K)) && v.Owner(K).mapping == old(v.Owner(K).mapping)[K := Int(k)]
    ensures CantorseqFrame(w, v, n, MirrorStep(s))
  {
    hide Shrink, Mirror, Frame.Visible, Frame.Layers, Frame.Owner, Frame.Get;
    SetOutside(w, v, K, Int(k));
    SetOwn(w, R, Own(w, Seq));
    SetOwn(w, L, Points(Shrink(0.0, Own(w, R).points)));
    SetOwn(w, R, Points(Mirror(Own(w, L).points)));
    SetOwn(w, Seq, Points(Own(w, L).points + Own(w, R).points));
  }

  /** The loop counter k goes the way of i in cantorri. */
  method Cantorseq(n: int, v: Scope) returns (s: seq<real>)
    requires v.Valid()
    modifies v.Owner(K)
    ensures s == SelfSimilar(n)
    ensures v.Owner(K) == old(v.Owner(K))
    ensures v.Owner(K).mapping == CountedTo(old(v.Owner(K).mapping), K, if n <= 1 then 0 else n - 1)
  {
    hide MirrorStep, Frame.Visible, Frame.Layers, Frame.Owner, Frame.Get;
    var w := Opened(v, map[N := Int(n)], map[Seq := Points([0.0, 1.0]), L := Points([]), R := Points([])]);
    var k := 1;
    while k < Own(w, N).i + -1 + 1
      invariant fresh(w) && CantorseqFrame(w, v, n, SelfSimilar(k)) && v.Owner(K) == old(v.Owner(K))
      invariant 1 <= k <= if n <= 1 then 1 else n
      invariant v.Owner(K).mapping == CountedTo(old(v.Owner(K).mapping), K, k - 1)
      decreases n - k
    {
      CantorseqRound(w, v, k, n, SelfSimilar(k));
      k := k + 1;
    }
    s := Own(w, Seq).points;
  }
}
