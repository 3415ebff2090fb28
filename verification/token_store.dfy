/**
  The shared registry behind both implementations: a map from token
  identifiers to the user each token was issued to.  In the Rust service it
  is the `HashMap<String, String>` inside the `AppState` mutex; in the Java
  service it is the static synchronized `db` map.  Each handler touches the
  map in one atomic step, so the registry is modelled as a plain value.
 */
module TokenStore {

  /** Token identifier -> user name. */
  type Store = map<string, string>

  /** Presence or absence of a value, as `HashMap::get` returns it. */
  datatype Option<+T> = None | Some(value: T)

  /** `m'` is `m` with exactly the entry `key -> value` set:
      the key is present afterwards with that value, no key appears or
      disappears besides it, and every other entry keeps its value. */
  predicate SetsOnly(m: Store, m': Store, key: string, value: string)
  {
    && m'.Keys == m.Keys + {key}
    && key in m'
    && m'[key] == value
    && forall k :: k in m && k != key ==> m'[k] == m[k]
  }

  /** Every entry of `m` is still in `m'` with the same value. */
  predicate Extends(m: Store, m': Store)
  {
    && m.Keys <= m'.Keys
    && forall k :: k in m ==> m'[k] == m[k]
  }

  /** `HashMap::insert` / `Map.put`: a key that is already present is
      silently overwritten rather than refused. */
  function Insert(m: Store, key: string, value: string): (m': Store)
    ensures SetsOnly(m, m', key, value)
    ensures key !in m ==> Extends(m, m') && |m'| == |m| + 1
    ensures key in m ==> |m'| == |m|
  {
    m[key := value]
  }

  /** `HashMap::get` / `containsKey` followed by `get`. */
  function Lookup(m: Store, key: string): (r: Option<string>)
    ensures r.Some? <==> key in m
    ensures r.Some? ==> r.value == m[key]
  {
    if key in m then Some(m[key]) else None
  }

  /** The entry set by an insertion is unique: two maps that both set only
      `key -> value` on top of the same map are the same map. */
  lemma SetsOnlyDetermines(m: Store, m1: Store, m2: Store, key: string, value: string)
    requires SetsOnly(m, m1, key, value)
    requires SetsOnly(m, m2, key, value)
    ensures m1 == m2
  {
  }

  lemma ExtendsTransitive(m1: Store, m2: Store, m3: Store)
    requires Extends(m1, m2) && Extends(m2, m3)
    ensures Extends(m1, m3)
  {
  }
}
