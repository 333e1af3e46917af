/** PHP's ordered associative array with string keys, as a sequence of
    key/value entries in insertion order. Lookups are flat: a key is matched
    whole, never split on `.` the way Laravel's `array_get` splits dot paths. */
module PhpArray {
  import opened Wrappers

  type Entries<V> = seq<(string, V)>

  /** `k` is one of the keys of `ps`. */
  ghost predicate HasKey<V>(ps: Entries<V>, k: string)
  {
    exists i :: 0 <= i < |ps| && ps[i].0 == k
  }

  /** No key occurs twice, as in every PHP array. */
  ghost predicate DistinctKeys<V>(ps: Entries<V>)
  {
    forall i, j :: 0 <= i < j < |ps| ==> ps[i].0 != ps[j].0
  }

  /** `$array[$k]` when the key exists, `None` when it does not. With distinct
      keys the value found is the one of the entry under `k`. */
  function Lookup<V>(ps: Entries<V>, k: string): (r: Option<V>)
    ensures r.Some? <==> HasKey(ps, k)
    ensures r.Some? ==> exists i :: 0 <= i < |ps| && ps[i] == (k, r.value)
    ensures DistinctKeys(ps) ==> forall i :: 0 <= i < |ps| && ps[i].0 == k ==> r == Some(ps[i].1)
  {
    if ps == [] then None
    else if ps[0].0 == k then Some(ps[0].1)
    else
      var r := Lookup(ps[1..], k);
      assert r.Some? ==> exists i :: 0 <= i < |ps[1..]| && ps[1..][i] == (k, r.value);
      assert HasKey(ps[1..], k) ==> HasKey(ps, k);
      assert HasKey(ps, k) ==> HasKey(ps[1..], k) by {
        if HasKey(ps, k) {
          var i :| 0 <= i < |ps| && ps[i].0 == k;
          assert i > 0 && ps[1..][i - 1].0 == k;
        }
      }
      assert DistinctKeys(ps) ==> DistinctKeys(ps[1..]);
      assert forall i :: 0 < i < |ps| ==> ps[i] == ps[1..][i - 1];
      r
  }

  /** `unset($array[$k])`: the entry under `k` goes, the others keep their
      order, and every other key keeps its value. */
  function Unset<V>(ps: Entries<V>, k: string): (r: Entries<V>)
    ensures |r| <= |ps|
    ensures Lookup(r, k) == None
    ensures forall k' :: k' != k ==> Lookup(r, k') == Lookup(ps, k')
  {
    if ps == [] then []
    else if ps[0].0 == k then Unset(ps[1..], k)
    else
      var t := Unset(ps[1..], k);
      assert ([ps[0]] + t)[0] == ps[0] && ([ps[0]] + t)[1..] == t;
      [ps[0]] + t
  }

  /** The entries of `ps` whose key is not among `ks`, in their original
      order: exactly the keys `ks` become unreachable, and every other key
      keeps its value. */
  function Without<V>(ps: Entries<V>, ks: seq<string>): (r: Entries<V>)
    ensures |r| <= |ps|
    ensures forall k :: k in ks ==> Lookup(r, k) == None
    ensures forall k :: k !in ks ==> Lookup(r, k) == Lookup(ps, k)
  {
    if ps == [] then []
    else if ps[0].0 in ks then Without(ps[1..], ks)
    else
      var t := Without(ps[1..], ks);
      assert ([ps[0]] + t)[0] == ps[0] && ([ps[0]] + t)[1..] == t;
      [ps[0]] + t
  }

  /** Removing keys commutes with concatenation, so the kept entries keep
      their relative order. */
  lemma {:induction false} WithoutAppend<V>(a: Entries<V>, b: Entries<V>, ks: seq<string>)
    ensures Without(a + b, ks) == Without(a, ks) + Without(b, ks)
  {
    if a == [] {
      assert a + b == b;
    } else {
      assert (a + b)[0] == a[0] && (a + b)[1..] == a[1..] + b;
      WithoutAppend(a[1..], b, ks);
    }
  }

  /** On one entry, removal keeps it exactly when its key is not excluded. */
  lemma WithoutSingle<V>(p: (string, V), ks: seq<string>)
    ensures Without([p], ks) == if p.0 in ks then [] else [p]
  {
    assert [p][1..] == [];
  }

  /** Removing no keys keeps every entry. */
  lemma {:induction false} WithoutNone<V>(ps: Entries<V>)
    ensures Without(ps, []) == ps
  {
    if ps != [] {
      WithoutNone(ps[1..]);
    }
  }

  /** Unsetting the keys one after another removes them all. */
  lemma {:induction false} WithoutSnoc<V>(ps: Entries<V>, ks: seq<string>, k: string)
    ensures Without(ps, ks + [k]) == Unset(Without(ps, ks), k)
  {
    if ps != [] {
      WithoutSnoc(ps[1..], ks, k);
      if ps[0].0 !in ks {
        assert Without(ps, ks) == [ps[0]] + Without(ps[1..], ks);
        assert ([ps[0]] + Without(ps[1..], ks))[1..] == Without(ps[1..], ks);
      }
    }
  }

  /** Unsetting a key that is not there changes nothing. */
  lemma {:induction false} UnsetAbsent<V>(ps: Entries<V>, k: string)
    requires Lookup(ps, k) == None
    ensures Unset(ps, k) == ps
  {
    if ps != [] {
      assert ps[0].0 != k && Lookup(ps[1..], k) == None;
      UnsetAbsent(ps[1..], k);
      assert Unset(ps, k) == [ps[0]] + Unset(ps[1..], k);
    }
  }

  /** One step of unsetting a list of keys in turn: the `isset`-guarded
      `unset` of the next key extends the removal by that key. */
  lemma UnsetStep<V>(ps: Entries<V>, ks: seq<string>, i: nat)
    requires i < |ks|
    ensures Without(ps, ks[..i + 1]) ==
      if Lookup(Without(ps, ks[..i]), ks[i]).Some? then Unset(Without(ps, ks[..i]), ks[i])
      else Without(ps, ks[..i])
  {
    assert ks[..i + 1] == ks[..i] + [ks[i]];
    WithoutSnoc(ps, ks[..i], ks[i]);
    if Lookup(Without(ps, ks[..i]), ks[i]).None? {
      UnsetAbsent(Without(ps, ks[..i]), ks[i]);
    }
  }

  /** Every entry of `Without(ps, ks)` is an entry of `ps` with a kept key. */
  lemma {:induction false} WithoutEntries<V>(ps: Entries<V>, ks: seq<string>)
    ensures forall e :: e in Without(ps, ks) ==> e in ps && e.0 !in ks
  {
    if ps != [] {
      WithoutEntries(ps[1..], ks);
    }
  }

  /** An entry in front of entries with other keys keeps the keys distinct. */
  lemma DistinctCons<V>(p: (string, V), t: Entries<V>)
    requires DistinctKeys(t)
    requires forall e :: e in t ==> e.0 != p.0
    ensures DistinctKeys([p] + t)
  {
    var r := [p] + t;
    forall i, j | 0 <= i < j < |r| ensures r[i].0 != r[j].0 {
      assert r[j] == t[j - 1];
      if i > 0 {
        assert r[i] == t[i - 1];
      }
    }
  }

  /** Removing keys keeps the keys distinct. */
  lemma {:induction false} WithoutDistinct<V>(ps: Entries<V>, ks: seq<string>)
    requires DistinctKeys(ps)
    ensures DistinctKeys(Without(ps, ks))
  {
    if ps != [] {
      assert DistinctKeys(ps[1..]);
      WithoutDistinct(ps[1..], ks);
      var t := Without(ps[1..], ks);
      if ps[0].0 !in ks {
        WithoutEntries(ps[1..], ks);
        forall e | e in t ensures e.0 != ps[0].0 {
          var n :| 0 <= n < |ps[1..]| && ps[1..][n] == e;
          assert ps[n + 1] == e;
        }
        DistinctCons(ps[0], t);
        assert Without(ps, ks) == [ps[0]] + t;
      }
    }
  }
}
