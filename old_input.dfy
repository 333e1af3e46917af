/** The old-input store of the test helpers: a key/value table of values a
    user submitted earlier (`OldValuesStorage`), and the `old()` helper that
    reads it. A stored value may be PHP `null`, which `isset` treats as absent. */
module OldInput {
  import opened Wrappers

  /** The store's contents; `None` is a stored `null`. */
  type Store = map<string, Option<string>>

  /** PHP `isset($values[$k])`: the key is there and its value is not `null`. */
  predicate Isset(m: Store, k: string): (b: bool)
    ensures k !in m ==> !b
    ensures k in m && m[k] == None ==> !b
    ensures k in m && m[k] != None ==> b
  {
    k in m && m[k].Some?
  }

  /** What `get($k, $default)` answers for the contents `m`. */
  function ValueOr(m: Store, k: string, default: Option<string>): (r: Option<string>)
    ensures k in m && m[k] != None ==> r == m[k]
    ensures k in m && m[k] == None ==> r == default
    ensures k !in m ==> r == default
  {
    if Isset(m, k) then m[k] else default
  }

  class OldValuesStorage {
    var values: Store

    constructor ()
      ensures values == map[]
    {
      values := map[];
    }

    method Set(key: string, value: Option<string>)
      modifies this
      ensures values == old(values)[key := value]
    {
      values := values[key := value];
    }

    method Has(key: string) returns (b: bool)
      ensures b <==> Isset(values, key)
    {
      b := key in values && values[key] != None;
    }

    method Get(key: string, default: Option<string>) returns (r: Option<string>)
      ensures r == ValueOr(values, key, default)
    {
      var has := Has(key);
      r := if has then values[key] else default;
    }

    method Forget(key: string)
      modifies this
      ensures values == old(values) - {key}
    {
      values := values - {key};
    }

    method Flush()
      modifies this
      ensures values == map[]
    {
      values := map[];
    }
  }

  /** The global `old($key, $default)` helper, reading the given store. */
  method Old(store: OldValuesStorage, key: string, default: Option<string>) returns (r: Option<string>)
    ensures r == ValueOr(store.values, key, default)
  {
    r := store.Get(key, default);
  }

  /** After `set(k, v)` with a non-null `v`, `has(k)` holds and `get(k, d)` is `v`;
      after `set(k, null)`, `has(k)` fails and `get(k, d)` is `d`. */
  lemma SetThenGet(m: Store, k: string, v: Option<string>, d: Option<string>)
    ensures Isset(m[k := v], k) <==> v.Some?
    ensures ValueOr(m[k := v], k, d) == if v.Some? then v else d
  {
  }

  /** `set(k, v)` leaves every other key's answer as it was. */
  lemma SetKeepsOthers(m: Store, k: string, v: Option<string>, k': string, d: Option<string>)
    requires k' != k
    ensures Isset(m[k := v], k') == Isset(m, k')
    ensures ValueOr(m[k := v], k', d) == ValueOr(m, k', d)
  {
  }

  /** After `forget(k)`, `has(k)` fails and every other key's answer is unchanged. */
  lemma ForgetThenGet(m: Store, k: string, k': string, d: Option<string>)
    ensures !Isset(m - {k}, k) && ValueOr(m - {k}, k, d) == d
    ensures k' != k ==> ValueOr(m - {k}, k', d) == ValueOr(m, k', d)
  {
  }

  /** After `flush()`, no key is set and every `get` answers its default. */
  lemma FlushThenGet(k: string, d: Option<string>)
    ensures !Isset(map[], k) && ValueOr(map[], k, d) == d
  {
  }
}
