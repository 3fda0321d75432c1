/**
 The variable frames translated Maxima code runs on: a chain of mutable dictionaries,
 innermost first, that ends in a plain base dictionary.
 */
module ScopedFrames {
  import opened Wrappers

  function Lookup<K, V>(m: map<K, V>, key: K): Option<V> {
    if key in m then Some(m[key]) else None
  }

  // ---------- layers of bindings, innermost first ----------

  /** The bindings that are visible through all layers: {**sub, **mapping}. */
  function Flat<K, V>(layers: seq<map<K, V>>): map<K, V> {
    if layers == [] then map[] else Flat(layers[1..]) + layers[0]
  }

  /** What becomes visible under key once its innermost binding is gone. */
  function Exposed<K, V>(layers: seq<map<K, V>>, key: K): Option<V> {
    if layers == [] then None
    else if key in layers[0] then Lookup(Flat(layers[1..]), key)
    else Exposed(layers[1..], key)
  }

  function WithLookup<K(!new), V>(m: map<K, V>, key: K, o: Option<V>): (m': map<K, V>)
    ensures Lookup(m', key) == o
    ensures forall k :: k != key ==> Lookup(m', k) == Lookup(m, k)
  {
    if o.Some? then m[key := o.value] else m - {key}
  }

  lemma DropFromTop<K(!new), V>(below: map<K, V>, top: map<K, V>, key: K)
    requires key in top
    ensures below + (top - {key}) == WithLookup(below + top, key, Lookup(below, key))
  {
  }

  lemma DropFromBelow<K(!new), V>(below: map<K, V>, top: map<K, V>, key: K, o: Option<V>)
    requires key !in top
    ensures WithLookup(below, key, o) + top == WithLookup(below + top, key, o)
  {
  }

  lemma ExposedStep<K, V>(layers: seq<map<K, V>>, key: K)
    requires layers != []
    ensures key in layers[0] ==> Exposed(layers, key) == Lookup(Flat(layers[1..]), key)
    ensures key !in layers[0] ==> Exposed(layers, key) == Exposed(layers[1..], key)
    ensures key !in Flat(layers) ==> Exposed(layers, key) == None
  {
  }

  function SumSizes<K, V>(layers: seq<map<K, V>>): nat {
    if layers == [] then 0 else |layers[0]| + SumSizes(layers[1..])
  }

  /** No key is bound in two layers. */
  ghost predicate NothingShadowed<K, V>(layers: seq<map<K, V>>) {
    forall i, j :: 0 <= i < j < |layers| ==> layers[i].Keys !! layers[j].Keys
  }

  lemma {:induction false} FlatKeys<K, V>(layers: seq<map<K, V>>, key: K)
    ensures key in Flat(layers) <==> exists i :: 0 <= i < |layers| && key in layers[i]
  {
    if layers != [] {
      FlatKeys(layers[1..], key);
      if key in Flat(layers[1..]) {
        var i :| 0 <= i < |layers[1..]| && key in layers[1..][i];
        assert key in layers[i + 1];
      }
      if i :| 0 <= i < |layers| && key in layers[i] {
        assert i > 0 ==> key in layers[1..][i - 1];
      }
    }
  }

  /** The visible value of a key is that of the innermost layer that binds it. */
  lemma {:induction false} FlatIsInnermost<K, V>(layers: seq<map<K, V>>, key: K, i: nat)
    requires i < |layers| && key in layers[i] && forall j :: 0 <= j < i ==> key !in layers[j]
    ensures Lookup(Flat(layers), key) == Some(layers[i][key])
  {
    if i > 0 { FlatIsInnermost(layers[1..], key, i - 1); }
  }

  /** The places where a key is bound. */
  ghost function Places<K, V>(layers: seq<map<K, V>>): set<(int, K)> {
    set i, k | 0 <= i < |layers| && k in layers[i].Keys :: (i, k)
  }

  ghost function Row<K>(keys: set<K>, i: int): set<(int, K)> {
    set k | k in keys :: (i, k)
  }

  lemma {:induction false} RowSize<K>(keys: set<K>, i: int)
    ensures |Row(keys, i)| == |keys|
  {
    if keys != {} {
      var k :| k in keys;
      RowSize(keys - {k}, i);
      assert Row(keys, i) == Row(keys - {k}, i) + {(i, k)};
    }
  }

  lemma {:induction false} SumSizesLast<K, V>(layers: seq<map<K, V>>, last: map<K, V>)
    ensures SumSizes(layers + [last]) == SumSizes(layers) + |last|
  {
    if layers == [] {
      assert layers + [last] == [last] && [last][1..] == [];
    } else {
      assert (layers + [last])[1..] == layers[1..] + [last];
      SumSizesLast(layers[1..], last);
    }
  }

  lemma PlacesLast<K, V>(layers: seq<map<K, V>>, last: map<K, V>)
    ensures Places(layers + [last]) == Places(layers) + Row(last.Keys, |layers|)
    ensures Places(layers) !! Row(last.Keys, |layers|)
  {
    var all, n := layers + [last], |layers|;
    forall i, k ensures (i, k) in Places(all) <==> (i, k) in Places(layers) + Row(last.Keys, n) {
      if 0 <= i < n { assert all[i] == layers[i]; }
    }
  }

  /** The sizes of the layers add up to the number of places where a key is bound. */
  lemma {:induction false} SumSizesCountsPlaces<K, V>(layers: seq<map<K, V>>)
    ensures SumSizes(layers) == |Places(layers)|
    decreases |layers|
  {
    if layers == [] {
      assert Places(layers) == {};
    } else {
      var n := |layers| - 1;
      var init, last := layers[..n], layers[n];
      SumSizesCountsPlaces(init);
      hide Places, Row, SumSizes;
      assert layers == init + [last];
      SumSizesLast(init, last);
      RowSize(last.Keys, n);
      PlacesLast(init, last);
    }
  }

  lemma UnionSize<T>(a: set<T>, b: set<T>)
    ensures |a + b| + |a * b| == |a| + |b|
  {
    assert a + b == a + (b - a);
    assert b == (b - a) + (a * b);
  }

  /** The sizes of the layers add up to the number of visible keys exactly when nothing is shadowed. */
  lemma {:induction false} SizesCountVisibleKeys<K, V>(layers: seq<map<K, V>>)
    ensures SumSizes(layers) >= |Flat(layers)|
    ensures SumSizes(layers) == |Flat(layers)| <==> NothingShadowed(layers)
  {
    if layers != [] {
      var top, rest := layers[0].Keys, layers[1..];
      SizesCountVisibleKeys(rest);
      assert Flat(layers).Keys == Flat(rest).Keys + top;
      UnionSize(Flat(rest).Keys, top);
      assert |Flat(rest).Keys| == |Flat(rest)| && |top| == |layers[0]| && |Flat(layers).Keys| == |Flat(layers)|;
      if Flat(rest).Keys * top == {} && NothingShadowed(rest) {
        forall i, j | 0 <= i < j < |layers| ensures layers[i].Keys !! layers[j].Keys {
          if i == 0 {
            forall k | k in layers[j] ensures k !in top {
              assert k in rest[j - 1];
              FlatKeys(rest, k);
            }
          } else {
            assert layers[i] == rest[i - 1] && layers[j] == rest[j - 1];
          }
        }
      }
      if NothingShadowed(layers) {
        assert NothingShadowed(rest);
        forall k ensures k !in Flat(rest).Keys * top {
          FlatKeys(rest, k);
          if i :| 0 <= i < |rest| && k in rest[i] {
            assert layers[0].Keys !! layers[i + 1].Keys;
          }
        }
        assert Flat(rest).Keys * top == {};
      }
    }
  }

  // ---------- frames on the heap ----------

  /** A frame of the chain; one without a sub is the base dictionary. */
  class Frame<K(==,!new), V> {
    var mapping: map<K, V>
    const sub: Frame?<K, V>
    ghost const footprint: set<Frame<K, V>>

    ghost predicate Valid()
      decreases footprint
    {
      && this in footprint
      && (sub == null ==> footprint == {this})
      && (sub != null ==> footprint == {this} + sub.footprint && this !in sub.footprint && sub.Valid())
    }

    /** The bindings of every frame of the chain, innermost first. */
    ghost function Layers(): (layers: seq<map<K, V>>)
      requires Valid()
      reads footprint
      ensures layers != [] && layers[0] == mapping
      decreases footprint
    {
      [mapping] + if sub == null then [] else sub.Layers()
    }

    /** The flat dictionary this chain stands for. */
    ghost function Visible(): map<K, V>
      requires Valid()
      reads footprint
    {
      Flat(Layers())
    }

    /** The innermost frame that binds key, or the base dictionary. */
    ghost function Owner(key: K): (o: Frame<K, V>)
      requires Valid()
      reads footprint
      ensures o in footprint
      ensures key in o.mapping || o.sub == null
      ensures key in mapping ==> o == this
      decreases footprint
    {
      if key in mapping || sub == null then this else sub.Owner(key)
    }

    lemma Unfold()
      requires Valid()
      ensures sub == null ==> Layers() == [mapping] && Visible() == mapping
      ensures sub != null ==> Layers() == [mapping] + sub.Layers() && Visible() == sub.Visible() + mapping
    {
      if sub == null {
        assert Flat([mapping]) == Flat([]) + mapping == mapping;
      } else {
        assert Layers()[1..] == sub.Layers();
      }
    }

    constructor Base(data: map<K, V>)
      ensures Valid() && sub == null && mapping == data
      ensures fresh(this)
    {
      mapping := data;
      sub := null;
      footprint := {this};
    }

    constructor (data: map<K, V>, below: Frame<K, V>)
      requires below.Valid()
      ensures Valid() && sub == below && mapping == data
    {
      mapping := data;
      sub := below;
      footprint := {this} + below.footprint;
    }

    /** __getitem__; None is the KeyError. */
    function Get(key: K): (r: Option<V>)
      requires Valid()
      reads footprint
      ensures r == Lookup(Visible(), key)
      decreases footprint
    {
      Unfold();
      if key in mapping || sub == null then Lookup(mapping, key) else sub.Get(key)
    }

    lemma FromBelow(key: K)
      requires Valid() && sub != null && key !in mapping
      ensures Owner(key) == sub.Owner(key) && Get(key) == sub.Get(key)
    {
    }

    /** A key bound one frame below, and not here, is read from there and written there. */
    lemma OneBelow(key: K)
      requires Valid() && sub != null && key !in mapping && key in sub.mapping
      ensures Owner(key) == sub && Get(key) == Some(sub.mapping[key])
    {
    }

    /** __setitem__: only the owner changes, and the flat dictionary is updated in one place. */
    method Set(key: K, value: V)
      requires Valid()
      modifies Owner(key)
      ensures old(Owner(key)).mapping == old(Owner(key).mapping)[key := value]
      ensures Owner(key) == old(Owner(key))
      ensures Visible() == old(Visible())[key := value]
      decreases footprint
    {
      hide Flat;
      Unfold();
      label before:
      if key in mapping || sub == null {
        mapping := mapping[key := value];
        assert sub != null ==> sub.Visible() == old@before(sub.Visible());
      } else {
        sub.Set(key, value);
      }
      Unfold();
    }

    /** __delitem__: the innermost binding goes, the next one becomes visible; false is the KeyError. */
    method Delete(key: K) returns (found: bool)
      requires Valid()
      modifies Owner(key)
      ensures found == (key in old(Visible()))
      ensures old(Owner(key)).mapping == old(Owner(key).mapping) - {key}
      ensures Visible() == WithLookup(old(Visible()), key, old(Exposed(Layers(), key)))
      decreases footprint
    {
      hide Flat, Exposed, WithLookup;
      Unfold();
      ExposedStep(Layers(), key);
      ghost var below := if sub == null then map[] else sub.Visible();
      ghost var exposed := Exposed(Layers(), key);
      ghost var top := mapping;
      assert sub != null ==> Layers()[1..] == sub.Layers();
      if key in mapping || sub == null {
        found := key in mapping;
        mapping := mapping - {key};
        assert sub != null ==> sub.Visible() == below;
        Unfold();
        if sub == null {
          DropFromBase(top, key, exposed);
        } else {
          DropFromTop(below, top, key);
        }
      } else {
        found := sub.Delete(key);
        Unfold();
        DropFromBelow(below, mapping, key, exposed);
      }
    }

    static lemma DropFromBase(top: map<K, V>, key: K, exposed: Option<V>)
      requires exposed == Exposed([top], key)
      ensures top - {key} == WithLookup(top, key, exposed)
    {
      assert [top][1..] == [];
    }

    /** ins: new bindings for this frame only. */
    method Ins(data: map<K, V>)
      requires Valid()
      modifies this
      ensures mapping == old(mapping) + data
      ensures Layers()[1..] == old(Layers())[1..]
      ensures Visible() == old(Visible()) + data
    {
      Unfold();
      ghost var below := Layers()[1..];
      mapping := mapping + data;
      assert sub != null ==> sub.Layers() == below;
      Unfold();
    }

    /** __len__: the sizes of all frames added up. */
    method Len() returns (n: nat)
      requires Valid()
      ensures n == SumSizes(Layers())
      decreases footprint
    {
      Unfold();
      n := |mapping|;
      if sub != null {
        assert Layers()[1..] == sub.Layers();
        var m := sub.Len();
        n := n + m;
      }
    }

    /** __iter__: the keys of {**sub, **mapping}, each once. */
    method Keys() returns (keys: set<K>)
      requires Valid()
      ensures keys == Visible().Keys
      decreases footprint
    {
      Unfold();
      keys := mapping.Keys;
      if sub != null {
        var below := sub.Keys();
        keys := below + keys;
      }
    }
  }
}
