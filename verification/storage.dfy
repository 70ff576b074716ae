/**
  The storage facade of the new-tab organizer.

  Every operation first tries the host store (the extension's persistent
  key-value area). When that store is absent from the environment, or its
  completion callback reports an error, the same operation is run against
  the local fallback store instead, which holds only text: values are
  encoded on write and decoded on read. There is no further fallback, so an
  error raised on the local path (a stored text that does not decode) rejects
  the call.

  The facade itself holds no state: a `Store` value is the pair of backends
  it routes to, and each operation is a pure function from the store before
  the call, and the host's behaviour on that call, to the store after it
  and the caller's result.
 */
module Storage {

  import opened Wrappers

  type Key = string

  /** How the host store behaves on one call: absent from the environment,
      present but reporting an error through its callback, or completing. */
  datatype HostOutcome = Unavailable | Fails | Ok

  /** The backend that serves a call. */
  datatype Backend = Host | Local

  /** The only error the local path can raise in this model: the text stored
      under `key` does not decode. The code rejects with the decoder's own
      syntax error, which names no key; `key` is the model's record of which
      stored text failed. */
  datatype StorageError = Malformed(key: Key)

  /** A settled call: resolved with a value, or rejected with an error. */
  datatype Result<+T> = Success(value: T) | Failure(error: StorageError)

  /** The textual encoding used by the local store. `decode` answers `None`
      where the real decoder would throw. */
  datatype Codec<!V> = Codec(encode: V -> string, decode: string -> Option<V>)

  /** A codec whose encodings are never empty and always decode back to the
      value encoded. The round-trip properties of the local path hold for
      such codecs. */
  ghost predicate Faithful<V(!new)>(c: Codec<V>)
  {
    forall v :: c.encode(v) != "" && c.decode(c.encode(v)) == Some(v)
  }

  /** Both backends' contents. */
  datatype Store<V> = Store(host: map<Key, V>, local: map<Key, string>)

  /** `m1` and `m2` hold the same entry (or none) for `k`. */
  ghost predicate SameEntry<X, Y>(m1: map<X, Y>, m2: map<X, Y>, k: X)
  {
    (k in m1 <==> k in m2) && (k in m1 ==> m1[k] == m2[k])
  }

  /** The rule every operation shares: the host serves the call exactly when
      it is present and its callback reports no error. */
  function Route(o: HostOutcome): (b: Backend)
    ensures b == Host <==> o == Ok
  {
    if o == Ok then Host else Local
  }

  // ---------------------------------------------------------------------
  // Reads on each backend
  // ---------------------------------------------------------------------

  /** A value is stored under `k` in the local store when the key is there
      and its text is not empty: an empty text reads as absent. */
  predicate Stored(local: map<Key, string>, k: Key)
  {
    k in local && local[k] != ""
  }

  /** The local store holds text under `k` that the codec cannot decode. */
  ghost predicate Unreadable<V>(local: map<Key, string>, c: Codec<V>, k: Key)
  {
    Stored(local, k) && c.decode(local[k]).None?
  }

  /** The host store's answer for one key. */
  function HostRead<V>(host: map<Key, V>, k: Key): (r: Option<V>)
    ensures r.Some? <==> k in host
    ensures r.Some? ==> r.value == host[k]
  {
    if k in host then Some(host[k]) else None
  }

  /** The local store's answer for one key: absent for a missing key or an
      empty text, otherwise the decoded text, and a rejection when the text
      does not decode. */
  function LocalRead<V>(local: map<Key, string>, c: Codec<V>, k: Key): (r: Result<Option<V>>)
    ensures r == Success(None) <==> !Stored(local, k)
    ensures r.Failure? <==> Unreadable(local, c, k)
    ensures r.Failure? ==> r.error == Malformed(k)
    ensures r.Success? && r.value.Some? ==> Stored(local, k) && c.decode(local[k]) == r.value
  {
    if !Stored(local, k) then Success(None)
    else match c.decode(local[k])
      case None => Failure(Malformed(k))
      case Some(v) => Success(Some(v))
  }

  /** The local path of a batch read: the keys are visited in order, each
      stored text is decoded into the result, and the first text that does
      not decode rejects the whole batch. */
  function LocalReadMany<V>(local: map<Key, string>, c: Codec<V>, keys: seq<Key>): (r: Result<map<Key, V>>)
    ensures r.Success? <==> forall i :: 0 <= i < |keys| ==> !Unreadable(local, c, keys[i])
    ensures r.Success? ==> r.value.Keys == set k | k in keys && Stored(local, k)
    ensures r.Success? ==> forall k :: k in r.value ==> c.decode(local[k]) == Some(r.value[k])
    ensures r.Failure? ==>
              exists i :: 0 <= i < |keys| && r.error == Malformed(keys[i]) && Unreadable(local, c, keys[i])
                          && forall j :: 0 <= j < i ==> !Unreadable(local, c, keys[j])
    decreases |keys|
  {
    if keys == [] then Success(map[])
    else
      var k := keys[0];
      var rest := LocalReadMany(local, c, keys[1..]);
      if !Stored(local, k) then
        rest
      else match c.decode(local[k])
        case None => Failure(Malformed(k))
        case Some(v) =>
          match rest
          case Failure(e) => Failure(e)
          case Success(m) => Success(m[k := v])
  }

  // ---------------------------------------------------------------------
  // The five operations
  // ---------------------------------------------------------------------

  /** `set(key, value)`: on the host path only the host entry for `key`
      changes; on the local path only the local entry for `key`, which
      becomes the encoding of `value`. */
  function Set<V>(s: Store<V>, o: HostOutcome, c: Codec<V>, key: Key, value: V): (r: Store<V>)
    ensures Route(o) == Host ==>
              && r.local == s.local
              && HostRead(r.host, key) == Some(value)
              && forall k :: k != key ==> SameEntry(r.host, s.host, k)
    ensures Route(o) == Local ==>
              && r.host == s.host
              && key in r.local && r.local[key] == c.encode(value)
              && forall k :: k != key ==> SameEntry(r.local, s.local, k)
  {
    match Route(o)
    case Host => s.(host := s.host[key := value])
    case Local => s.(local := s.local[key := c.encode(value)])
  }

  /** `get(key)`: the host's entry for `key` when the host serves the call,
      otherwise the local store's answer. Reads change neither store. */
  function Get<V>(s: Store<V>, o: HostOutcome, c: Codec<V>, key: Key): (r: Result<Option<V>>)
    ensures Route(o) == Host ==> r.Success? && (r.value.Some? <==> key in s.host)
    ensures Route(o) == Host && key in s.host ==> r.value.value == s.host[key]
    ensures Route(o) == Local ==> (r == Success(None) <==> !Stored(s.local, key))
    ensures Route(o) == Local ==> (r.Failure? <==> Unreadable(s.local, c, key))
    ensures Route(o) == Local && r.Success? && r.value.Some? ==> c.decode(s.local[key]) == r.value
  {
    match Route(o)
    case Host => Success(HostRead(s.host, key))
    case Local => LocalRead(s.local, c, key)
  }

  /** `getMultiple(keys)`: a map from each requested key that has a value to
      that value; keys without a value are omitted. The host answers in one
      batch; the local path visits the keys one by one. */
  function GetMultiple<V>(s: Store<V>, o: HostOutcome, c: Codec<V>, keys: seq<Key>): (r: Result<map<Key, V>>)
    ensures Route(o) == Host ==> r.Success?
    ensures Route(o) == Host ==> r.value.Keys == set k | k in keys && k in s.host
    ensures Route(o) == Host ==> forall k :: k in r.value ==> r.value[k] == s.host[k]
    ensures Route(o) == Local ==> (r.Success? <==> forall i :: 0 <= i < |keys| ==> !Unreadable(s.local, c, keys[i]))
    ensures Route(o) == Local && r.Success? ==> r.value.Keys == set k | k in keys && Stored(s.local, k)
    ensures Route(o) == Local && r.Success? ==> forall k :: k in r.value ==> c.decode(s.local[k]) == Some(r.value[k])
  {
    match Route(o)
    case Host => Success(map k | k in keys && k in s.host :: s.host[k])
    case Local => LocalReadMany(s.local, c, keys)
  }

  /** `remove(key)`: the entry for `key` disappears from the serving backend;
      every other entry of both backends stays. */
  function Remove<V>(s: Store<V>, o: HostOutcome, key: Key): (r: Store<V>)
    ensures Route(o) == Host ==> r.local == s.local && key !in r.host
    ensures Route(o) == Host ==> forall k :: k != key ==> SameEntry(r.host, s.host, k)
    ensures Route(o) == Local ==> r.host == s.host && key !in r.local
    ensures Route(o) == Local ==> forall k :: k != key ==> SameEntry(r.local, s.local, k)
  {
    match Route(o)
    case Host => s.(host := s.host - {key})
    case Local => s.(local := s.local - {key})
  }

  /** `clear()`: the serving backend loses every entry; the other keeps all
      of its own. */
  function Clear<V>(s: Store<V>, o: HostOutcome): (r: Store<V>)
    ensures Route(o) == Host ==> r.local == s.local && forall k :: k !in r.host
    ensures Route(o) == Local ==> r.host == s.host && forall k :: k !in r.local
  {
    match Route(o)
    case Host => s.(host := map[])
    case Local => s.(local := map[])
  }

  // ---------------------------------------------------------------------
  // One call of the facade
  // ---------------------------------------------------------------------

  datatype Request<V> =
    | SetRequest(key: Key, value: V)
    | GetRequest(key: Key)
    | GetMultipleRequest(keys: seq<Key>)
    | RemoveRequest(key: Key)
    | ClearRequest

  /** What the caller's promise settles to: nothing (writes), one optional
      value, a map of values, or a rejection. */
  datatype Response<V> =
    | Done
    | Value(item: Option<V>)
    | Values(items: map<Key, V>)
    | Rejected(error: StorageError)

  datatype Step<V> = Step(store: Store<V>, response: Response<V>)

  predicate IsRead<V>(q: Request<V>)
  {
    q.GetRequest? || q.GetMultipleRequest?
  }

  /** One call of the facade. Only the serving backend can change: a write
      stores the value (the host) or its encoding (the local store), a
      removal drops the key and a clear drops every key there, and no other
      key is touched. Reads change nothing and answer from the serving
      backend; writes never reject, and only a local read can. */
  function Call<V>(s: Store<V>, o: HostOutcome, c: Codec<V>, q: Request<V>): (t: Step<V>)
    ensures Route(o) == Host ==> t.store.local == s.local
    ensures Route(o) == Local ==> t.store.host == s.host
    ensures IsRead(q) ==> t.store == s
    ensures !IsRead(q) ==> t.response == Done
    ensures t.response.Rejected? ==> Route(o) == Local && IsRead(q)
    ensures q.SetRequest? && Route(o) == Host ==> HostRead(t.store.host, q.key) == Some(q.value)
    ensures q.SetRequest? && Route(o) == Local ==> q.key in t.store.local && t.store.local[q.key] == c.encode(q.value)
    ensures q.SetRequest? || q.RemoveRequest? ==>
              forall k :: k != q.key ==> SameEntry(t.store.host, s.host, k) && SameEntry(t.store.local, s.local, k)
    ensures q.RemoveRequest? && Route(o) == Host ==> q.key !in t.store.host
    ensures q.RemoveRequest? && Route(o) == Local ==> q.key !in t.store.local
    ensures q.ClearRequest? && Route(o) == Host ==> t.store.host == map[]
    ensures q.ClearRequest? && Route(o) == Local ==> t.store.local == map[]
    ensures q.GetRequest? && Route(o) == Host ==> t.response == Value(HostRead(s.host, q.key))
    ensures q.GetRequest? && Route(o) == Local ==>
              && (t.response.Rejected? <==> Unreadable(s.local, c, q.key))
              && (t.response == Value(None) <==> !Stored(s.local, q.key))
              && (t.response.Value? && t.response.item.Some? ==> c.decode(s.local[q.key]) == t.response.item)
    ensures q.GetRequest? && Route(o) == Local && Stored(s.local, q.key) && c.decode(s.local[q.key]).Some? ==>
              t.response == Value(c.decode(s.local[q.key]))
    ensures q.GetMultipleRequest? && Route(o) == Host ==>
              && t.response.Values?
              && t.response.items.Keys == (set k | k in q.keys && k in s.host)
              && forall k :: k in t.response.items ==> t.response.items[k] == s.host[k]
    ensures q.GetMultipleRequest? && Route(o) == Local ==>
              && (t.response.Rejected? <==> exists i :: 0 <= i < |q.keys| && Unreadable(s.local, c, q.keys[i]))
              && (t.response.Values? ==> t.response.items.Keys == (set k | k in q.keys && Stored(s.local, k)))
    ensures q.GetMultipleRequest? && Route(o) == Local && !t.response.Rejected? ==>
              && t.response.Values?
              && forall k :: k in t.response.items ==> c.decode(s.local[k]) == Some(t.response.items[k])
  {
    match q
    case SetRequest(key, value) => Step(Set(s, o, c, key, value), Done)
    case GetRequest(key) =>
      (match Get(s, o, c, key)
       case Success(v) => Step(s, Value(v))
       case Failure(e) => Step(s, Rejected(e)))
    case GetMultipleRequest(keys) =>
      (match GetMultiple(s, o, c, keys)
       case Success(m) => Step(s, Values(m))
       case Failure(e) => Step(s, Rejected(e)))
    case RemoveRequest(key) => Step(Remove(s, o, key), Done)
    case ClearRequest => Step(Clear(s, o), Done)
  }

  /** One call in a sequence: the request and how the host behaves on it. */
  datatype Invocation<V> = Invocation(outcome: HostOutcome, request: Request<V>)

  /** The store after the calls `calls`, made one after the other from `s`.
      A sequence of reads leaves the store as it was. */
  function Run<V>(s: Store<V>, c: Codec<V>, calls: seq<Invocation<V>>): (r: Store<V>)
    ensures (forall i :: 0 <= i < |calls| ==> IsRead(calls[i].request)) ==> r == s
    decreases |calls|
  {
    if calls == [] then s
    else Run(Call(s, calls[0].outcome, c, calls[0].request).store, c, calls[1..])
  }

  // ---------------------------------------------------------------------
  // Properties relating the operations
  // ---------------------------------------------------------------------

  /** A key that neither backend holds, and that no call in a sequence
      writes, reads as absent afterwards, whichever backend serves the read:
      removals and clears never make a value appear, and writes to other
      keys leave it alone. */
  lemma {:induction false} NeverWrittenReadsAbsent<V>(s: Store<V>, c: Codec<V>, calls: seq<Invocation<V>>, o: HostOutcome, k: Key)
    requires k !in s.host && !Stored(s.local, k)
    requires forall i :: 0 <= i < |calls| ==> !(calls[i].request.SetRequest? && calls[i].request.key == k)
    ensures Get(Run(s, c, calls), o, c, k) == Success(None)
    decreases |calls|
  {
    if calls != [] {
      var next := Call(s, calls[0].outcome, c, calls[0].request).store;
      assert k !in next.host && !Stored(next.local, k);
      assert forall i :: 0 <= i < |calls[1..]| ==> calls[1..][i] == calls[i + 1];
      NeverWrittenReadsAbsent(next, c, calls[1..], o, k);
    }
  }

  /** Read-after-write on the same backend returns the value written. The
      local path needs a faithful codec. */
  lemma SetThenGet<V(!new)>(s: Store<V>, o1: HostOutcome, o2: HostOutcome, c: Codec<V>, key: Key, value: V)
    requires Route(o1) == Route(o2)
    requires Route(o1) == Local ==> Faithful(c)
    ensures Get(Set(s, o1, c, key, value), o2, c, key) == Success(Some(value))
  {
  }

  /** A write to one key leaves every other key's read unchanged, whichever
      backend served the write and whichever serves the read. */
  lemma SetKeepsOtherKeys<V>(s: Store<V>, o1: HostOutcome, o2: HostOutcome, c: Codec<V>, key: Key, value: V, k: Key)
    requires k != key
    ensures Get(Set(s, o1, c, key, value), o2, c, k) == Get(s, o2, c, k)
  {
  }

  /** After a removal, a read on the same backend finds nothing. */
  lemma RemoveThenGet<V>(s: Store<V>, o1: HostOutcome, o2: HostOutcome, c: Codec<V>, key: Key)
    requires Route(o1) == Route(o2)
    ensures Get(Remove(s, o1, key), o2, c, key) == Success(None)
  {
  }

  /** Removing a key the serving backend does not hold changes nothing. */
  lemma RemoveAbsentKey<V>(s: Store<V>, o: HostOutcome, key: Key)
    requires Route(o) == Host ==> key !in s.host
    requires Route(o) == Local ==> key !in s.local
    ensures Remove(s, o, key) == s
  {
  }

  /** After a clear, every read on the same backend finds nothing, and a
      batch read returns the empty map. */
  lemma ClearThenGet<V>(s: Store<V>, o1: HostOutcome, o2: HostOutcome, c: Codec<V>, k: Key, keys: seq<Key>)
    requires Route(o1) == Route(o2)
    ensures Get(Clear(s, o1), o2, c, k) == Success(None)
    ensures GetMultiple(Clear(s, o1), o2, c, keys) == Success(map[])
  {
  }

  /** The two backends are never synchronised: a value written through the
      host is not seen by a later call that falls back to a local store
      lacking the key, whether the host is absent or reports an error. */
  lemma NoSyncAcrossBackends<V>(s: Store<V>, o1: HostOutcome, o2: HostOutcome, c: Codec<V>, key: Key, value: V)
    requires Route(o1) == Host && Route(o2) == Local
    requires key !in s.local
    ensures Get(Set(s, o1, c, key, value), o2, c, key) == Success(None)
  {
  }

  /** A batch read agrees with single reads: it rejects exactly when one of
      the keys' single reads rejects, and otherwise holds, for every
      requested key, exactly the value a single read returns. */
  lemma GetMultipleAgreesWithGet<V>(s: Store<V>, o: HostOutcome, c: Codec<V>, keys: seq<Key>)
    ensures GetMultiple(s, o, c, keys).Failure? <==> exists i :: 0 <= i < |keys| && Get(s, o, c, keys[i]).Failure?
    ensures GetMultiple(s, o, c, keys).Success? ==>
              forall i :: 0 <= i < |keys| ==>
                var m := GetMultiple(s, o, c, keys).value;
                Get(s, o, c, keys[i]) == Success(if keys[i] in m then Some(m[keys[i]]) else None)
  {
  }

  /** The batch read depends only on which keys are asked for, not on their
      order or repetition (apart from which malformed key a rejection
      names). */
  lemma GetMultipleIgnoresOrderAndDuplicates<V>(s: Store<V>, o: HostOutcome, c: Codec<V>, keys1: seq<Key>, keys2: seq<Key>)
    requires forall k :: k in keys1 <==> k in keys2
    ensures GetMultiple(s, o, c, keys1).Success? == GetMultiple(s, o, c, keys2).Success?
    ensures GetMultiple(s, o, c, keys1).Success? ==> GetMultiple(s, o, c, keys1) == GetMultiple(s, o, c, keys2)
  {
    var r1, r2 := GetMultiple(s, o, c, keys1), GetMultiple(s, o, c, keys2);
    if r1.Success? {
      assert r1.value.Keys == r2.value.Keys;
      forall k | k in r1.value
        ensures r1.value[k] == r2.value[k]
      {
        if Route(o) == Local {
          assert Some(r1.value[k]) == c.decode(s.local[k]) == Some(r2.value[k]);
        }
      }
      assert r1.value == r2.value;
    }
  }
}
