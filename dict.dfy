/** A Python dict with string keys, as the scrapers use it: it remembers the
    order in which keys were first inserted, and assigning to a key that is
    already present replaces its value without moving it. */
module OrderedDict {

  datatype Dict<V> = Dict(keys: seq<string>, vals: map<string, V>)

  /** The keys are listed once each, and exactly the keys of the map. */
  predicate Valid<V>(d: Dict<V>)
  {
    && (forall i, j :: 0 <= i < j < |d.keys| ==> d.keys[i] != d.keys[j])
    && (forall k :: k in d.vals ==> k in d.keys)
    && (forall i :: 0 <= i < |d.keys| ==> d.keys[i] in d.vals)
  }

  function Empty<V>(): (d: Dict<V>)
    ensures Valid(d) && d.keys == []
  {
    Dict([], map[])
  }

  /** `d[k] = v` */
  function Put<V>(d: Dict<V>, k: string, v: V): (r: Dict<V>)
    requires Valid(d)
    ensures Valid(r)
    ensures r.vals == d.vals[k := v]
    ensures k in d.vals ==> r.keys == d.keys
    ensures k !in d.vals ==> r.keys == d.keys + [k]
  {
    Dict(if k in d.vals then d.keys else d.keys + [k], d.vals[k := v])
  }

  /** The dict a sequence of assignments `d[k] = v`, in order, builds from
      the empty dict. */
  function Build<V>(kvs: seq<(string, V)>): (d: Dict<V>)
    ensures Valid(d)
  {
    if kvs == [] then Empty()
    else
      var last := kvs[|kvs| - 1];
      Put(Build(kvs[..|kvs| - 1]), last.0, last.1)
  }

  /** The position of the first assignment to `k`. */
  function FirstIndex<V>(kvs: seq<(string, V)>, k: string): (i: nat)
    ensures i <= |kvs|
    ensures i < |kvs| ==> kvs[i].0 == k
    ensures forall j :: 0 <= j < i ==> kvs[j].0 != k
  {
    if kvs == [] then 0
    else if kvs[0].0 == k then 0
    else 1 + FirstIndex(kvs[1..], k)
  }

  /** A key is present exactly when some assignment used it; its value is
      the one the last such assignment wrote. */
  lemma BuildContents<V>(kvs: seq<(string, V)>)
    ensures forall k :: k in Build(kvs).vals <==> exists i :: 0 <= i < |kvs| && kvs[i].0 == k
    ensures forall i :: 0 <= i < |kvs| && (forall j :: i < j < |kvs| ==> kvs[j].0 != kvs[i].0) ==>
      Build(kvs).vals[kvs[i].0] == kvs[i].1
  {
    BuildKeys(kvs);
    BuildLastWrite(kvs);
  }

  lemma {:induction false} BuildKeys<V>(kvs: seq<(string, V)>)
    ensures forall k :: k in Build(kvs).vals <==> exists i :: 0 <= i < |kvs| && kvs[i].0 == k
  {
    if kvs != [] {
      var n := |kvs|;
      var front := kvs[..n - 1];
      BuildKeys(front);
      BuildSnoc(kvs, n);
      assert kvs[..n] == kvs;
      forall k ensures k in Build(kvs).vals <==> exists i :: 0 <= i < n && kvs[i].0 == k {
        if k in Build(front).vals {
          var i :| 0 <= i < |front| && front[i].0 == k;
          assert kvs[i].0 == k;
        }
        if exists i :: 0 <= i < n && kvs[i].0 == k {
          var i :| 0 <= i < n && kvs[i].0 == k;
          if i < n - 1 {
            assert front[i].0 == k;
          }
        }
      }
    }
  }

  lemma BuildLastWrite<V>(kvs: seq<(string, V)>)
    ensures forall i :: 0 <= i < |kvs| && (forall j :: i < j < |kvs| ==> kvs[j].0 != kvs[i].0) ==>
      kvs[i].0 in Build(kvs).vals && Build(kvs).vals[kvs[i].0] == kvs[i].1
  {
    forall i | 0 <= i < |kvs| && (forall j :: i < j < |kvs| ==> kvs[j].0 != kvs[i].0)
      ensures kvs[i].0 in Build(kvs).vals && Build(kvs).vals[kvs[i].0] == kvs[i].1
    {
      BuildLastWriteAt(kvs, i);
    }
  }

  lemma {:induction false} BuildLastWriteAt<V>(kvs: seq<(string, V)>, i: nat)
    requires i < |kvs| && forall j :: i < j < |kvs| ==> kvs[j].0 != kvs[i].0
    ensures kvs[i].0 in Build(kvs).vals && Build(kvs).vals[kvs[i].0] == kvs[i].1
  {
    var n := |kvs|;
    BuildSnoc(kvs, n);
    assert kvs[..n] == kvs;
    if i < n - 1 {
      var front := kvs[..n - 1];
      assert front[i] == kvs[i];
      forall j | i < j < |front| ensures front[j].0 != front[i].0 {
        assert front[j] == kvs[j];
      }
      BuildLastWriteAt(front, i);
    }
  }

  /** Keys are listed in the order of their first assignment. */
  lemma {:induction false} BuildOrder<V>(kvs: seq<(string, V)>)
    ensures InFirstOrder(kvs, Build(kvs).keys)
  {
    if kvs != [] {
      var front := kvs[..|kvs| - 1];
      var last := kvs[|kvs| - 1];
      assert kvs == front + [last];
      BuildOrder(front);
      BuildOrderStep(front, last);
    }
  }

  /** Every key was assigned, and the keys are ordered by first assignment. */
  predicate InFirstOrder<V>(kvs: seq<(string, V)>, keys: seq<string>)
  {
    && (forall i :: 0 <= i < |keys| ==> FirstIndex(kvs, keys[i]) < |kvs|)
    && (forall i, j :: 0 <= i < j < |keys| ==> FirstIndex(kvs, keys[i]) < FirstIndex(kvs, keys[j]))
  }

  lemma BuildOrderStep<V>(front: seq<(string, V)>, last: (string, V))
    requires InFirstOrder(front, Build(front).keys)
    ensures InFirstOrder(front + [last], Build(front + [last]).keys)
  {
    var kvs := front + [last];
    assert kvs[..|kvs| - 1] == front;
    var old_keys := Build(front).keys;
    forall i | 0 <= i < |old_keys| ensures FirstIndex(kvs, old_keys[i]) == FirstIndex(front, old_keys[i]) {
      FirstIndexExtend(front, last, old_keys[i]);
    }
    if last.0 !in Build(front).vals {
      FirstIndexOfAbsent(front, last.0);
      FirstIndexExtend(front, last, last.0);
      NewKeyLast(kvs, old_keys, last.0);
    }
  }

  lemma NewKeyLast<V>(kvs: seq<(string, V)>, old_keys: seq<string>, k: string)
    requires forall i :: 0 <= i < |old_keys| ==> FirstIndex(kvs, old_keys[i]) < |kvs| - 1
    requires forall i, j :: 0 <= i < j < |old_keys| ==> FirstIndex(kvs, old_keys[i]) < FirstIndex(kvs, old_keys[j])
    requires FirstIndex(kvs, k) == |kvs| - 1
    ensures InFirstOrder(kvs, old_keys + [k])
  {
    var keys := old_keys + [k];
    forall i | 0 <= i < |keys| ensures FirstIndex(kvs, keys[i]) < |kvs| {
      if i < |old_keys| { assert keys[i] == old_keys[i]; }
    }
    forall i, j | 0 <= i < j < |keys| ensures FirstIndex(kvs, keys[i]) < FirstIndex(kvs, keys[j]) {
      assert keys[i] == old_keys[i];
      if j < |old_keys| { assert keys[j] == old_keys[j]; }
    }
  }

  lemma FirstIndexOfAbsent<V>(kvs: seq<(string, V)>, k: string)
    requires k !in Build(kvs).vals
    ensures FirstIndex(kvs, k) == |kvs|
  {
    BuildContents(kvs);
  }

  lemma {:induction false} FirstIndexExtend<V>(front: seq<(string, V)>, last: (string, V), k: string)
    ensures FirstIndex(front + [last], k) ==
      if FirstIndex(front, k) < |front| then FirstIndex(front, k)
      else if last.0 == k then |front| else |front| + 1
  {
    if front != [] {
      assert (front + [last])[1..] == front[1..] + [last];
      FirstIndexExtend(front[1..], last, k);
    }
  }

  /** The assignments that rebuild a dict, in its order. */
  function Entries<V>(d: Dict<V>): (kvs: seq<(string, V)>)
    requires Valid(d)
    ensures |kvs| == |d.keys|
    ensures forall i :: 0 <= i < |kvs| ==> kvs[i].0 == d.keys[i] && kvs[i].1 == d.vals[d.keys[i]]
  {
    seq(|d.keys|, i requires 0 <= i < |d.keys| => (d.keys[i], d.vals[d.keys[i]]))
  }

  /** Building from a dict's own entries gives the dict back. */
  lemma BuildEntries<V>(d: Dict<V>)
    requires Valid(d)
    ensures Build(Entries(d)) == d
  {
    var kvs := Entries(d);
    BuildPrefix(d, |kvs|);
    assert kvs[..|kvs|] == kvs;
    assert d.keys[..|d.keys|] == d.keys;
    assert Restrict(d.vals, d.keys) == d.vals;
  }

  function Restrict<V>(m: map<string, V>, ks: seq<string>): map<string, V>
  {
    map k | k in m && k in ks :: m[k]
  }

  lemma {:induction false} BuildPrefix<V>(d: Dict<V>, n: nat)
    requires Valid(d) && n <= |d.keys|
    ensures Build(Entries(d)[..n]) == Dict(d.keys[..n], Restrict(d.vals, d.keys[..n]))
  {
    var kvs := Entries(d);
    if n > 0 {
      BuildPrefix(d, n - 1);
      BuildSnoc(kvs, n);
      var front, k := d.keys[..n - 1], d.keys[n - 1];
      assert kvs[n - 1] == (k, d.vals[k]);
      PrefixSnoc(d.keys, n);
      assert k !in front by {
        forall i | 0 <= i < n - 1 ensures front[i] != k {
          assert front[i] == d.keys[i];
        }
      }
      RestrictExtend(d.vals, front, k);
      var prev := Build(kvs[..n - 1]);
      assert prev == Dict(front, Restrict(d.vals, front));
      assert Put(prev, k, d.vals[k]) == Dict(front + [k], Restrict(d.vals, front)[k := d.vals[k]]);
    }
  }

  /** The dict built by the first `n` assignments is the one built by the
      first `n - 1`, then the `n`-th assignment. */
  lemma BuildSnoc<V>(kvs: seq<(string, V)>, n: nat)
    requires 0 < n <= |kvs|
    ensures Build(kvs[..n]) == Put(Build(kvs[..n - 1]), kvs[n - 1].0, kvs[n - 1].1)
  {
    assert kvs[..n][..n - 1] == kvs[..n - 1];
  }

  lemma PrefixSnoc<T>(s: seq<T>, n: nat)
    requires 0 < n <= |s|
    ensures s[..n] == s[..n - 1] + [s[n - 1]]
  {
  }

  lemma RestrictExtend<V>(m: map<string, V>, ks: seq<string>, k: string)
    requires k in m && k !in ks
    ensures k !in Restrict(m, ks)
    ensures Restrict(m, ks + [k]) == Restrict(m, ks)[k := m[k]]
  {
  }

  /** A dict has at most as many keys as assignments built it, and at least
      one when there was any assignment. */
  lemma {:induction false} BuildKeysBound<V>(kvs: seq<(string, V)>)
    ensures |Build(kvs).keys| <= |kvs|
    ensures kvs != [] ==> |Build(kvs).keys| > 0
  {
    if kvs != [] {
      BuildKeysBound(kvs[..|kvs| - 1]);
    }
  }
}
