/**
 The Cantor set as lists of interval end points.

 A list of points s stands for the closed intervals [s[0], s[1]], [s[2], s[3]], ...
 All numbers are exact: 1/3 is one third.
 */
module CantorSet {

  function Power(b: real, n: nat): real {
    if n == 0 then 1.0 else b * Power(b, n - 1)
  }

  function Power2(n: nat): (p: nat)
    ensures p >= 1
  {
    if n == 0 then 1 else 2 * Power2(n - 1)
  }

  /** gcantorseq: cut a gap of width p out of the middle of [u, w], scale the gap by r, recurse. */
  function Endpoints(u: real, w: real, p: real, r: real, n: int): (s: seq<real>)
    ensures |s| >= 2
    decreases n
  {
    if n > 1 then
      var q := (u + w) / 2.0;
      Endpoints(u, q - p / 2.0, p * r, r, n - 1) + Endpoints(q + p / 2.0, w, p * r, r, n - 1)
    else
      [u, w]
  }

  /** The middle-thirds construction on [u, w]. */
  function Thirds(u: real, w: real, n: int): (s: seq<real>)
    ensures |s| >= 2
    decreases n
  {
    if n > 1 then
      Thirds(u, u + (w - u) / 3.0, n - 1) + Thirds(w - (w - u) / 3.0, w, n - 1)
    else
      [u, w]
  }

  lemma EndpointsCase(u: real, w: real, p: real, r: real, n: int)
    ensures n <= 1 ==> Endpoints(u, w, p, r, n) == [u, w]
    ensures n > 1 ==> var q, pr := (u + w) / 2.0, p * r;
      Endpoints(u, w, p, r, n) ==
      Endpoints(u, q - p / 2.0, pr, r, n - 1) + Endpoints(q + p / 2.0, w, pr, r, n - 1)
  {
  }

  lemma {:induction false} EndpointsLength(u: real, w: real, p: real, r: real, n: nat)
    requires n >= 1
    ensures |Endpoints(u, w, p, r, n)| == Power2(n) == 2 * Power2(n - 1)
    ensures Endpoints(u, w, p, r, n)[0] == u && Endpoints(u, w, p, r, n)[Power2(n) - 1] == w
    decreases n
  {
    if n > 1 {
      var q, pr := (u + w) / 2.0, p * r;
      EndpointsLength(u, q - p / 2.0, pr, r, n - 1);
      EndpointsLength(q + p / 2.0, w, pr, r, n - 1);
    }
  }

  /**
   For any gap p and ratio r: from u to w, with a gap of width p around the middle, and on both sides of it
   the same construction with the gap scaled by r.
   */
  lemma EndpointsGap(u: real, w: real, p: real, r: real, n: nat)
    requires n > 1
    ensures var s, h, pr := Endpoints(u, w, p, r, n), Power2(n - 1), p * r;
      && |s| == 2 * h && s[0] == u && s[2 * h - 1] == w
      && s[h] - s[h - 1] == p && s[h] + s[h - 1] == u + w
      && s[..h] == Endpoints(u, s[h - 1], pr, r, n - 1) && s[h..] == Endpoints(s[h], w, pr, r, n - 1)
  {
    hide Endpoints, Power2;
    var q, pr := (u + w) / 2.0, p * r;
    EndpointsCase(u, w, p, r, n);
    EndpointsLength(u, q - p / 2.0, pr, r, n - 1);
    EndpointsLength(q + p / 2.0, w, pr, r, n - 1);
  }

  /** With gap and ratio one third, gcantorseq builds each level on the two outer thirds of the interval. */
  lemma {:induction false} EndpointsIsThirds(u: real, w: real, n: int)
    ensures Endpoints(u, w, (w - u) / 3.0, 1.0 / 3.0, n) == Thirds(u, w, n)
    decreases n
  {
    if n > 1 {
      var p, q := (w - u) / 3.0, (u + w) / 2.0;
      assert q - p / 2.0 == u + p && q + p / 2.0 == w - p;
      assert p * (1.0 / 3.0) == (u + p - u) / 3.0 == (w - (w - p)) / 3.0;
      EndpointsIsThirds(u, u + p, n - 1);
      EndpointsIsThirds(w - p, w, n - 1);
    }
  }

  /** One step of the construction; the proofs below hide the definition and use this. */
  lemma ThirdsStep(u: real, w: real, n: int)
    ensures n > 1 ==>
            Thirds(u, w, n) == Thirds(u, u + (w - u) / 3.0, n - 1) + Thirds(w - (w - u) / 3.0, w, n - 1)
    ensures n <= 1 ==> Thirds(u, w, n) == [u, w]
  {
  }

  // ---------- shape ----------

  ghost predicate Increasing(s: seq<real>) {
    forall i, j :: 0 <= i < j < |s| ==> s[i] < s[j]
  }

  ghost predicate HasInterval(s: seq<real>, i: nat) {
    2 * i + 1 < |s|
  }

  ghost function Width(s: seq<real>, i: nat): real
    requires HasInterval(s, i)
  {
    s[2 * i + 1] - s[2 * i]
  }

  ghost predicate AllWidths(s: seq<real>, d: real) {
    forall i: nat | HasInterval(s, i) :: Width(s, i) == d
  }

  /** Sum of the widths of all intervals. */
  function TotalLength(s: seq<real>): real {
    if |s| < 2 then 0.0 else s[1] - s[0] + TotalLength(s[2..])
  }

  lemma {:induction false} TotalLengthConcat(s: seq<real>, t: seq<real>)
    requires |s| % 2 == 0
    ensures TotalLength(s + t) == TotalLength(s) + TotalLength(t)
  {
    if |s| < 2 {
      assert s + t == t;
    } else {
      assert (s + t)[2..] == s[2..] + t;
      TotalLengthConcat(s[2..], t);
    }
  }

  /** Level n has 2^n end points, strictly increasing from u to w. */
  lemma {:induction false} ThirdsIncreasing(u: real, w: real, n: nat)
    requires n >= 1 && u < w
    ensures |Thirds(u, w, n)| == Power2(n) == 2 * Power2(n - 1)
    ensures Thirds(u, w, n)[0] == u && Thirds(u, w, n)[Power2(n) - 1] == w
    ensures Increasing(Thirds(u, w, n))
    decreases n
  {
    hide Thirds;
    ThirdsStep(u, w, n);
    if n > 1 {
      var p := (w - u) / 3.0;
      ThirdsIncreasing(u, u + p, n - 1);
      ThirdsIncreasing(w - p, w, n - 1);
      var l, r := Thirds(u, u + p, n - 1), Thirds(w - p, w, n - 1);
      assert forall i :: 0 <= i < |l| ==> l[i] <= l[|l| - 1];
      assert forall j :: 0 <= j < |r| ==> r[0] <= r[j];
    }
  }

  lemma WidthsConcat(s: seq<real>, t: seq<real>, d: real)
    requires |s| % 2 == 0 && AllWidths(s, d) && AllWidths(t, d)
    ensures AllWidths(s + t, d)
  {
    var h := |s| / 2;
    forall i: nat | HasInterval(s + t, i) ensures Width(s + t, i) == d {
      if i < h {
        assert HasInterval(s, i) && Width(s + t, i) == Width(s, i);
      } else {
        assert HasInterval(t, i - h) && Width(s + t, i) == Width(t, i - h);
      }
    }
  }

  /** Width of each interval of level n inside an interval of width d. */
  ghost function LevelWidth(d: real, n: nat): real
    decreases n
  {
    if n > 1 then LevelWidth(d / 3.0, n - 1) else d
  }

  /** Sum of the widths of level n inside an interval of width d. */
  ghost function LevelTotal(d: real, n: nat): real
    decreases n
  {
    if n > 1 then 2.0 * LevelTotal(d / 3.0, n - 1) else d
  }

  lemma {:induction false} LevelPowers(d: real, n: nat)
    requires n >= 1
    ensures LevelWidth(d, n) == d * Power(1.0 / 3.0, n - 1)
    ensures LevelTotal(d, n) == d * Power(2.0 / 3.0, n - 1)
    decreases n
  {
    if n > 1 {
      LevelPowers(d / 3.0, n - 1);
      var a, b := Power(1.0 / 3.0, n - 2), Power(2.0 / 3.0, n - 2);
      assert d / 3.0 * a == d * (1.0 / 3.0 * a);
      assert 2.0 * (d / 3.0 * b) == d * (2.0 / 3.0 * b);
    }
  }

  lemma {:induction false} ThirdsWidths(u: real, w: real, n: nat)
    requires n >= 1 && u < w
    ensures AllWidths(Thirds(u, w, n), LevelWidth(w - u, n))
    decreases n
  {
    hide Thirds;
    ThirdsStep(u, w, n);
    var p := (w - u) / 3.0;
    if n > 1 {
      ThirdsWidths(u, u + p, n - 1);
      ThirdsWidths(w - p, w, n - 1);
      ThirdsIncreasing(u, u + p, n - 1);
      WidthsConcat(Thirds(u, u + p, n - 1), Thirds(w - p, w, n - 1), LevelWidth(p, n - 1));
    }
  }

  lemma {:induction false} ThirdsTotal(u: real, w: real, n: nat)
    requires n >= 1 && u < w
    ensures TotalLength(Thirds(u, w, n)) == LevelTotal(w - u, n)
    decreases n
  {
    hide Thirds;
    ThirdsStep(u, w, n);
    var p := (w - u) / 3.0;
    if n == 1 {
      assert [u, w][2..] == [];
    } else {
      ThirdsTotal(u, u + p, n - 1);
      ThirdsTotal(w - p, w, n - 1);
      ThirdsIncreasing(u, u + p, n - 1);
      TotalLengthConcat(Thirds(u, u + p, n - 1), Thirds(w - p, w, n - 1));
    }
  }

  /** gcantorseq on any interval: 2^n increasing points from u to w, equal widths, total length (w-u)(2/3)^(n-1). */
  lemma EndpointsShape(u: real, w: real, d: real, n: nat, s: seq<real>)
    requires u < w == u + d && n >= 1
    requires s == Endpoints(u, w, d / 3.0, 1.0 / 3.0, n)
    ensures |s| == Power2(n)
    ensures s[0] == u && s[|s| - 1] == w
    ensures Increasing(s)
    ensures AllWidths(s, d * Power(1.0 / 3.0, n - 1))
    ensures TotalLength(s) == d * Power(2.0 / 3.0, n - 1)
  {
    hide Thirds, Endpoints, Increasing, TotalLength;
    assert w - u == d;
    EndpointsIsThirds(u, w, n);
    ThirdsIncreasing(u, w, n);
    ThirdsWidths(u, w, n);
    ThirdsTotal(u, w, n);
    LevelPowers(d, n);
  }

  // ---------- self-similarity ----------

  /** Every point of s moved by x -> x/3 + c. */
  function Shrink(c: real, s: seq<real>): (t: seq<real>)
    ensures |t| == |s|
  {
    if s == [] then [] else [s[0] / 3.0 + c] + Shrink(c, s[1..])
  }

  /** Every point of s moved by x -> 1 - x, in reverse order. */
  function Mirror(s: seq<real>): (t: seq<real>)
    ensures |t| == |s|
  {
    if s == [] then [] else Mirror(s[1..]) + [1.0 - s[0]]
  }

  lemma {:induction false} ShrinkAt(c: real, s: seq<real>, i: nat)
    requires i < |s|
    ensures Shrink(c, s)[i] == s[i] / 3.0 + c
  {
    if i > 0 { ShrinkAt(c, s[1..], i - 1); }
  }

  lemma {:induction false} MirrorAt(s: seq<real>, i: nat)
    requires i < |s|
    ensures Mirror(s)[i] == 1.0 - s[|s| - 1 - i]
  {
    if i < |s| - 1 { MirrorAt(s[1..], i); }
  }

  lemma {:induction false} ShrinkConcat(c: real, s: seq<real>, t: seq<real>)
    ensures Shrink(c, s + t) == Shrink(c, s) + Shrink(c, t)
  {
    if s == [] {
      assert s + t == t;
    } else {
      assert (s + t)[1..] == s[1..] + t;
      ShrinkConcat(c, s[1..], t);
    }
  }

  lemma {:induction false} MirrorConcat(s: seq<real>, t: seq<real>)
    ensures Mirror(s + t) == Mirror(t) + Mirror(s)
  {
    if s == [] {
      assert s + t == t;
    } else {
      assert (s + t)[1..] == s[1..] + t;
      MirrorConcat(s[1..], t);
    }
  }

  /** Subdividing a shrunk interval gives the shrunk subdivision. */
  lemma {:induction false} ThirdsShrink(c: real, u: real, w: real, n: int)
    ensures Thirds(u / 3.0 + c, w / 3.0 + c, n) == Shrink(c, Thirds(u, w, n))
    decreases n
  {
    hide Thirds;
    ThirdsStep(u, w, n);
    ThirdsStep(u / 3.0 + c, w / 3.0 + c, n);
    if n > 1 {
      var p := (w - u) / 3.0;
      ThirdsShrink(c, u, u + p, n - 1);
      ThirdsShrink(c, w - p, w, n - 1);
      ShrinkConcat(c, Thirds(u, u + p, n - 1), Thirds(w - p, w, n - 1));
      assert (u + p) / 3.0 + c == u / 3.0 + c + (w / 3.0 + c - (u / 3.0 + c)) / 3.0;
      assert (w - p) / 3.0 + c == w / 3.0 + c - (w / 3.0 + c - (u / 3.0 + c)) / 3.0;
    }
  }

  /** A list made of two copies of s at one third of the size, in the outer thirds of [0, 1]. */
  function Double(s: seq<real>): (t: seq<real>)
    ensures |t| == 2 * |s|
  {
    Shrink(0.0, s) + Shrink(2.0 / 3.0, s)
  }

  /** The end points on [0, 1], built by doubling. */
  function Standard(n: int): seq<real> {
    if n > 1 then Double(Standard(n - 1)) else [0.0, 1.0]
  }

  /** Subdividing [0, 1] recursively and doubling give the same end points. */
  lemma {:induction false} StandardIsThirds(n: int)
    ensures Thirds(0.0, 1.0, n) == Standard(n)
  {
    hide Thirds;
    ThirdsStep(0.0, 1.0, n);
    if n > 1 {
      StandardIsThirds(n - 1);
      ThirdsShrink(0.0, 0.0, 1.0, n - 1);
      ThirdsShrink(2.0 / 3.0, 0.0, 1.0, n - 1);
    }
  }

  /** The list gcantorseq(0, 1, 1/3, 1/3, n). */
  lemma EndpointsIsStandard(n: int)
    ensures Endpoints(0.0, 1.0, 1.0 / 3.0, 1.0 / 3.0, n) == Standard(n)
  {
    hide *;
    EndpointsIsThirds(0.0, 1.0, n);
    StandardIsThirds(n);
  }

  lemma StandardIncreasing(n: nat)
    requires n >= 1
    ensures |Standard(n)| == Power2(n) == 2 * Power2(n - 1)
    ensures Standard(n)[0] == 0.0 && Standard(n)[Power2(n) - 1] == 1.0
    ensures Increasing(Standard(n))
  {
    StandardIsThirds(n);
    ThirdsIncreasing(0.0, 1.0, n);
  }

  /** One pass of the loop of cantorseq: a third of the list, followed by its mirror image. */
  function MirrorStep(s: seq<real>): seq<real> {
    Shrink(0.0, s) + Mirror(Shrink(0.0, s))
  }

  /** The list that cantorseq has built at level n. */
  function SelfSimilar(n: int): seq<real> {
    if n > 1 then MirrorStep(SelfSimilar(n - 1)) else [0.0, 1.0]
  }

  /** Mirroring a shrunk list is shrinking the mirrored list to the mirror image of the place. */
  lemma {:induction false} MirrorOfShrink(t: seq<real>, c: real)
    ensures Mirror(Shrink(c, t)) == Shrink(2.0 / 3.0 - c, Mirror(t))
  {
    if t != [] {
      MirrorOfShrink(t[1..], c);
      ShrinkConcat(2.0 / 3.0 - c, Mirror(t[1..]), [1.0 - t[0]]);
      assert Shrink(c, t)[1..] == Shrink(c, t[1..]);
      assert Shrink(2.0 / 3.0 - c, [1.0 - t[0]]) == [1.0 - (t[0] / 3.0 + c)];
    }
  }

  /** Mirroring the standard list gives the list back. */
  lemma {:induction false} StandardSymmetric(n: int)
    ensures Mirror(Standard(n)) == Standard(n)
  {
    if n > 1 {
      var t := Standard(n - 1);
      StandardSymmetric(n - 1);
      MirrorOfShrink(t, 0.0);
      MirrorOfShrink(t, 2.0 / 3.0);
      MirrorConcat(Shrink(0.0, t), Shrink(2.0 / 3.0, t));
    } else {
      assert Mirror([0.0, 1.0]) == [0.0, 1.0];
    }
  }

  /** The iterative list is the recursive subdivision, at every level. */
  lemma {:induction false} SelfSimilarIsStandard(n: int)
    ensures SelfSimilar(n) == Standard(n)
  {
    if n > 1 {
      SelfSimilarIsStandard(n - 1);
      StandardSymmetric(n - 1);
      MirrorOfShrink(Standard(n - 1), 0.0);
    }
  }

  /** cantorseq(n) equals gcantorseq(0, 1, 1/3, 1/3, n). */
  lemma SelfSimilarIsEndpoints(n: int)
    ensures SelfSimilar(n) == Endpoints(0.0, 1.0, 1.0 / 3.0, 1.0 / 3.0, n)
  {
    hide *;
    SelfSimilarIsStandard(n);
    EndpointsIsStandard(n);
  }

  // ---------- membership in the union of the intervals ----------

  /** x lies in the closed i-th interval of s. */
  predicate Within(x: real, s: seq<real>, i: nat) {
    2 * i + 1 < |s| && s[2 * i] <= x <= s[2 * i + 1]
  }

  /** x lies in the i-th interval of s, right end excluded. */
  predicate WithinHalfOpen(x: real, s: seq<real>, i: nat) {
    2 * i + 1 < |s| && s[2 * i] <= x < s[2 * i + 1]
  }

  ghost predicate InUnion(x: real, s: seq<real>) {
    exists i: nat :: Within(x, s, i)
  }

  ghost predicate InHalfOpenUnion(x: real, s: seq<real>) {
    exists i: nat :: WithinHalfOpen(x, s, i)
  }

  /** The i-th interval of t has one copy in each half of the doubled list. */
  lemma WithinDoubled(x: real, t: seq<real>, h: nat, i: nat)
    requires |t| == 2 * h && i < h
    ensures var s := Double(t);
      && (Within(x, s, i) <==> Within(3.0 * x, t, i))
      && (Within(x, s, i + h) <==> Within(3.0 * x - 2.0, t, i))
      && (WithinHalfOpen(x, s, i) <==> WithinHalfOpen(3.0 * x, t, i))
      && (WithinHalfOpen(x, s, i + h) <==> WithinHalfOpen(3.0 * x - 2.0, t, i))
  {
    var s := Double(t);
    ShrinkAt(0.0, t, 2 * i);
    ShrinkAt(0.0, t, 2 * i + 1);
    ShrinkAt(2.0 / 3.0, t, 2 * i);
    ShrinkAt(2.0 / 3.0, t, 2 * i + 1);
    hide Shrink;
    assert s[2 * i] == t[2 * i] / 3.0 && s[2 * i + 1] == t[2 * i + 1] / 3.0;
    assert s[2 * (i + h)] == t[2 * i] / 3.0 + 2.0 / 3.0;
    assert s[2 * (i + h) + 1] == t[2 * i + 1] / 3.0 + 2.0 / 3.0;
  }

  lemma WithinIndex(x: real, s: seq<real>, i: nat)
    ensures Within(x, s, i) || WithinHalfOpen(x, s, i) ==> 2 * i + 1 < |s|
  {
  }

  /** Zooming into the outer thirds undoes the doubling. */
  lemma UnionDoubled(x: real, t: seq<real>)
    requires |t| % 2 == 0
    ensures InUnion(x, Double(t)) <==> InUnion(3.0 * x, t) || InUnion(3.0 * x - 2.0, t)
  {
    hide Double, Within;
    var h := |t| / 2;
    if InUnion(x, Double(t)) {
      var i: nat :| Within(x, Double(t), i);
      WithinIndex(x, Double(t), i);
      WithinDoubled(x, t, h, if i < h then i else i - h);
    }
    if InUnion(3.0 * x, t) {
      var i: nat :| Within(3.0 * x, t, i);
      WithinIndex(3.0 * x, t, i);
      WithinDoubled(x, t, h, i);
    }
    if InUnion(3.0 * x - 2.0, t) {
      var i: nat :| Within(3.0 * x - 2.0, t, i);
      WithinIndex(3.0 * x - 2.0, t, i);
      WithinDoubled(x, t, h, i);
    }
  }

  lemma HalfOpenUnionDoubled(x: real, t: seq<real>)
    requires |t| % 2 == 0
    ensures InHalfOpenUnion(x, Double(t)) <==> InHalfOpenUnion(3.0 * x, t) || InHalfOpenUnion(3.0 * x - 2.0, t)
  {
    hide Double, WithinHalfOpen;
    var h := |t| / 2;
    if InHalfOpenUnion(x, Double(t)) {
      var i: nat :| WithinHalfOpen(x, Double(t), i);
      WithinIndex(x, Double(t), i);
      WithinDoubled(x, t, h, if i < h then i else i - h);
    }
    if InHalfOpenUnion(3.0 * x, t) {
      var i: nat :| WithinHalfOpen(3.0 * x, t, i);
      WithinIndex(3.0 * x, t, i);
      WithinDoubled(x, t, h, i);
    }
    if InHalfOpenUnion(3.0 * x - 2.0, t) {
      var i: nat :| WithinHalfOpen(3.0 * x - 2.0, t, i);
      WithinIndex(3.0 * x - 2.0, t, i);
      WithinDoubled(x, t, h, i);
    }
  }

  lemma UnionInRange(x: real, s: seq<real>)
    requires |s| >= 2 && |s| % 2 == 0 && Increasing(s) && s[0] == 0.0 && s[|s| - 1] == 1.0
    ensures InUnion(x, s) ==> 0.0 <= x <= 1.0
    ensures InHalfOpenUnion(x, s) ==> 0.0 <= x < 1.0
    ensures InUnion(0.0, s) && InHalfOpenUnion(0.0, s) && InUnion(1.0, s)
  {
    assert forall j :: 0 <= j < |s| ==> s[0] <= s[j] <= s[|s| - 1];
    assert Within(0.0, s, 0) && WithinHalfOpen(0.0, s, 0);
    var m := |s| / 2 - 1;
    assert s[2 * m + 1] == 1.0 && Within(1.0, s, m);
  }

  /** All the intervals lie in [0, 1], and both ends of [0, 1] belong to them. */
  lemma UnionBounds(x: real, n: nat)
    requires n >= 1
    ensures InUnion(x, Standard(n)) ==> 0.0 <= x <= 1.0
    ensures InHalfOpenUnion(x, Standard(n)) ==> 0.0 <= x < 1.0
    ensures InUnion(0.0, Standard(n)) && InHalfOpenUnion(0.0, Standard(n)) && InUnion(1.0, Standard(n))
  {
    hide Standard;
    StandardIncreasing(n);
    UnionInRange(x, Standard(n));
  }

  lemma UnitInterval(x: real)
    requires 0.0 <= x <= 1.0
    ensures Within(x, [0.0, 1.0], 0)
    ensures x < 1.0 ==> WithinHalfOpen(x, [0.0, 1.0], 0)
  {
  }

  lemma StandardStep(n: nat)
    ensures n > 0 ==> Standard(n + 1) == Double(Standard(n))
    ensures n == 0 ==> Standard(n + 1) == [0.0, 1.0]
  {
  }

  /** Membership at one level, in terms of the level below. */
  lemma UnionStep(x: real, n: nat)
    requires 0.0 <= x <= 1.0
    ensures n == 0 ==> InUnion(x, Standard(n + 1))
    ensures n > 0 ==> (InUnion(x, Standard(n + 1)) <==>
              if x <= 1.0 / 3.0 then InUnion(3.0 * x, Standard(n))
              else x >= 2.0 / 3.0 && InUnion(3.0 * x - 2.0, Standard(n)))
  {
    hide Standard, Within, Double;
    StandardStep(n);
    if n == 0 {
      assert Within(x, [0.0, 1.0], 0) by { UnitInterval(x); }
    } else {
      StandardIncreasing(n);
      UnionDoubled(x, Standard(n));
      UnionBounds(3.0 * x, n);
      UnionBounds(3.0 * x - 2.0, n);
    }
  }

  lemma HalfOpenUnionStep(x: real, n: nat)
    requires 0.0 <= x < 1.0
    ensures n == 0 ==> InHalfOpenUnion(x, Standard(n + 1))
    ensures n > 0 ==> (InHalfOpenUnion(x, Standard(n + 1)) <==>
              if x < 1.0 / 3.0 then InHalfOpenUnion(3.0 * x, Standard(n))
              else x >= 2.0 / 3.0 && InHalfOpenUnion(3.0 * x - 2.0, Standard(n)))
  {
    hide Standard, WithinHalfOpen, Double;
    StandardStep(n);
    if n == 0 {
      assert WithinHalfOpen(x, [0.0, 1.0], 0) by { UnitInterval(x); }
    } else {
      StandardIncreasing(n);
      HalfOpenUnionDoubled(x, Standard(n));
      UnionBounds(3.0 * x, n);
      UnionBounds(3.0 * x - 2.0, n);
    }
  }
}
