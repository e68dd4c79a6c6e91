/** The counter store the limiter depends on (internal/strategy/strategy.go).
    The interface only names six operations; their meaning here is the one the
    in-memory test doubles give them: an absent key reads as 0, an increment
    creates the key at 1, a delete makes the key absent. Time-to-live values are
    recorded as data; their elapse is the same transition as `Delete`. */
module Strategy {
  import opened Wrappers

  /** A counter record: its count and the time-to-live armed on it, if any. */
  datatype Entry = Entry(count: nat, ttl: Option<int>)

  type Store = map<string, Entry>

  /** An error returned by the backing store; the model does not look inside it. */
  datatype Err = StoreError(reason: string)

  /** One call issued to the store. `Close` is not modelled. */
  datatype Call =
    | GetCall(key: string)
    | IncrCall(key: string)
    | ExpireCall(key: string, ttlSeconds: int)
    | ExistsCall(key: string)
    | DeleteCall(key: string)

  /** Which calls fail, and with which error. A failed call changes nothing. */
  type Oracle = Call -> Option<Err>

  /** A store none of whose calls fail. */
  const Reliable: Oracle := (c: Call) => None

  function Find(s: Store, key: string): Option<Entry> {
    if key in s then Some(s[key]) else None
  }

  /** `s` and `t` hold the same record (or none) at every key other than `key`. */
  ghost predicate AgreeExcept(s: Store, t: Store, key: string) {
    forall k | k != key :: Find(s, k) == Find(t, k)
  }

  /** GetCounter: the stored count, 0 for an absent key. */
  function GetCounter(s: Store, key: string): (n: nat)
    ensures key !in s ==> n == 0
    ensures key in s ==> n == s[key].count
  {
    match Find(s, key)
    case None => 0
    case Some(e) => e.count
  }

  /** IncrementCounter: the count after the increment, and the new store. */
  function IncrementCounter(s: Store, key: string): (r: (nat, Store))
    ensures r.0 == GetCounter(s, key) + 1
    ensures key in r.1 && GetCounter(r.1, key) == r.0
    ensures key !in s ==> r.1[key] == Entry(1, None)
    ensures key in s ==> r.1[key].ttl == s[key].ttl
    ensures AgreeExcept(s, r.1, key)
  {
    var e := match Find(s, key)
      case None => Entry(1, None)
      case Some(prev) => Entry(prev.count + 1, prev.ttl);
    (e.count, s[key := e])
  }

  /** SetExpiration: arms `ttlSeconds` on a present key; an absent key stays absent. */
  function SetExpiration(s: Store, key: string, ttlSeconds: int): (t: Store)
    ensures key in t <==> key in s
    ensures GetCounter(t, key) == GetCounter(s, key)
    ensures key in s ==> t[key].ttl == Some(ttlSeconds)
    ensures AgreeExcept(s, t, key)
  {
    if key in s then s[key := s[key].(ttl := Some(ttlSeconds))] else s
  }

  /** Exists: whether a record is present. */
  function Exists(s: Store, key: string): (b: bool)
    ensures b <==> Find(s, key).Some?
  {
    key in s
  }

  /** Delete: removes the record; deleting an absent key is not an error. */
  function Delete(s: Store, key: string): (t: Store)
    ensures key !in t
    ensures AgreeExcept(s, t, key)
  {
    s - {key}
  }

  lemma AgreeExceptTrans(s: Store, t: Store, u: Store, key: string)
    requires AgreeExcept(s, t, key) && AgreeExcept(t, u, key)
    ensures AgreeExcept(s, u, key)
  {
  }

  /** After a delete the key neither exists nor counts anything. */
  lemma DeleteMakesAbsent(s: Store, key: string)
    ensures !Exists(Delete(s, key), key)
    ensures GetCounter(Delete(s, key), key) == 0
  {
  }

  /** An increment always leaves the key present, whatever the store held. */
  lemma IncrementMakesPresent(s: Store, key: string)
    ensures Exists(IncrementCounter(s, key).1, key)
    ensures GetCounter(IncrementCounter(s, key).1, key) >= 1
  {
  }

  /** Arming a time-to-live and then reading gives the same count as reading directly,
      and an increment after it keeps the armed time-to-live. */
  lemma ExpirationSurvivesIncrement(s: Store, key: string, ttlSeconds: int)
    requires key in s
    ensures var t := IncrementCounter(SetExpiration(s, key, ttlSeconds), key).1;
            t[key] == Entry(s[key].count + 1, Some(ttlSeconds))
  {
  }

  /** Every store operation on `key` leaves every other key's record as it was. */
  lemma Locality(s: Store, key: string, other: string, ttlSeconds: int)
    requires other != key
    ensures Find(IncrementCounter(s, key).1, other) == Find(s, other)
    ensures Find(SetExpiration(s, key, ttlSeconds), other) == Find(s, other)
    ensures Find(Delete(s, key), other) == Find(s, other)
    ensures GetCounter(IncrementCounter(s, key).1, other) == GetCounter(s, other)
    ensures Exists(Delete(s, key), other) == Exists(s, other)
  {
  }
}
