/** The admission decision engine (internal/limiter/limiter.go): a fixed-window
    counter per identity, a token taking precedence over the address, and a
    per-token override of limit and block duration. The engine's state is its
    configuration; the counters live in the store, which every operation takes
    and returns, together with the store calls it issued. */
module Limiter {
  import opened Wrappers
  import opened Strategy
  import opened Keys

  /** The limit and the block duration (the window's time-to-live, in seconds)
      a check runs under. */
  datatype Policy = Policy(limit: int, blockDuration: int)

  /** The limiter's configuration: defaults shared by addresses and unregistered
      tokens, and the two override tables kept side by side. */
  datatype RateLimiter = RateLimiter(
    defaultLimit: int,
    defaultBlockDuration: int,
    tokenLimits: map<string, int>,
    tokenBlockDurations: map<string, int>)

  /** The two override tables are registered together, so they have the same tokens. */
  ghost predicate Valid(rl: RateLimiter) {
    rl.tokenLimits.Keys == rl.tokenBlockDurations.Keys
  }

  /** A registered token is one with an override. */
  predicate Registered(rl: RateLimiter, token: string) {
    token in rl.tokenLimits
  }

  function AddressPolicy(rl: RateLimiter): Policy {
    Policy(rl.defaultLimit, rl.defaultBlockDuration)
  }

  /** The policy a token is checked under: each half of the override is looked
      up on its own, falling back to the defaults the addresses use. */
  function TokenPolicy(rl: RateLimiter, token: string): (p: Policy)
    ensures Valid(rl) && Registered(rl, token) ==>
              p == Policy(rl.tokenLimits[token], rl.tokenBlockDurations[token])
    ensures Valid(rl) && !Registered(rl, token) ==> p == AddressPolicy(rl)
  {
    var limit := if token in rl.tokenLimits then rl.tokenLimits[token] else rl.defaultLimit;
    var blockDuration :=
      if token in rl.tokenBlockDurations then rl.tokenBlockDurations[token] else rl.defaultBlockDuration;
    Policy(limit, blockDuration)
  }

  /** NewRateLimiter: the defaults, and no token registered. */
  function NewRateLimiter(defaultLimit: int, defaultBlockDuration: int): (rl: RateLimiter)
    ensures Valid(rl)
    ensures AddressPolicy(rl) == Policy(defaultLimit, defaultBlockDuration)
    ensures forall token :: !Registered(rl, token) && TokenPolicy(rl, token) == AddressPolicy(rl)
  {
    RateLimiter(defaultLimit, defaultBlockDuration, map[], map[])
  }

  /** ConfigureToken: registers or replaces `token`'s override and nothing else. */
  function ConfigureToken(rl: RateLimiter, token: string, limit: int, blockDuration: int): (rl': RateLimiter)
    ensures Valid(rl) ==> Valid(rl')
    ensures Registered(rl', token)
    ensures TokenPolicy(rl', token) == Policy(limit, blockDuration)
    ensures forall other | other != token ::
              Registered(rl', other) == Registered(rl, other) && TokenPolicy(rl', other) == TokenPolicy(rl, other)
    ensures AddressPolicy(rl') == AddressPolicy(rl)
  {
    rl.(tokenLimits := rl.tokenLimits[token := limit],
        tokenBlockDurations := rl.tokenBlockDurations[token := blockDuration])
  }

  /** The precedence rule: a non-empty token wins over the address. */
  function Subject(ip: string, token: string): (id: Identity)
    ensures id.Token? <==> token != ""
    ensures id.Token? ==> id.token == token
    ensures id.Address? ==> id.ip == ip
  {
    if token != "" then Token(token) else Address(ip)
  }

  function PolicyFor(rl: RateLimiter, id: Identity): Policy {
    match id
    case Address(_) => AddressPolicy(rl)
    case Token(token) => TokenPolicy(rl, token)
  }

  /** The answer of a check, the store after it, and the store calls it issued. */
  datatype Outcome = Outcome(result: Result<bool, Err>, store: Store, calls: seq<Call>)

  predicate Admitted(o: Outcome) {
    o.result == Success(true)
  }

  predicate Denied(o: Outcome) {
    o.result == Success(false)
  }

  /** The calls a check may issue, in order: read, increment, arm the expiry. */
  function Protocol(key: string, p: Policy): seq<Call> {
    [GetCall(key), IncrCall(key), ExpireCall(key, p.blockDuration)]
  }

  /** check: read the count; deny without writing at the limit; otherwise
      increment, and arm the expiry when the increment opened the window. Any
      failing store call ends the check with that error. */
  function Check(s: Store, key: string, p: Policy, o: Oracle): (r: Outcome)
    // the calls issued are a non-empty prefix of read, increment, arm
    ensures 1 <= |r.calls| && r.calls <= Protocol(key, p)
    // errors: every call but the last succeeded; the check fails iff the last did, with its error
    ensures forall i | 0 <= i < |r.calls| - 1 :: o(r.calls[i]).None?
    ensures r.result.Failure? <==> o(r.calls[|r.calls| - 1]).Some?
    ensures r.result.Failure? ==> o(r.calls[|r.calls| - 1]) == Some(r.result.error)
    // a read or increment failure writes nothing; an arming failure leaves the
    // increment in place and the window unarmed
    ensures r.result.Failure? && |r.calls| < 3 ==> r.store == s
    ensures r.result.Failure? && |r.calls| == 3 ==>
              && GetCounter(r.store, key) == 1
              && (key in s ==> r.store[key].ttl == s[key].ttl)
              && (key !in s ==> r.store[key] == Entry(1, None))
    // deny: exactly when the read succeeds at or above the limit, and nothing is written
    ensures Denied(r) <==> o(GetCall(key)).None? && GetCounter(s, key) >= p.limit
    ensures Denied(r) ==> r.store == s && r.calls == [GetCall(key)]
    // admit: exactly when the count is below the limit and every issued call succeeds
    ensures Admitted(r) <==>
              && o(GetCall(key)).None? && GetCounter(s, key) < p.limit && o(IncrCall(key)).None?
              && (GetCounter(s, key) == 0 ==> o(ExpireCall(key, p.blockDuration)).None?)
    ensures Admitted(r) ==> GetCounter(r.store, key) == GetCounter(s, key) + 1 <= p.limit
    // an admission always increments: the read is followed by the increment
    ensures Admitted(r) ==> |r.calls| >= 2 && r.calls[1] == IncrCall(key)
    // the expiry is armed, with the policy's duration, iff the increment produced 1
    ensures |r.calls| == 3 <==>
              o(GetCall(key)).None? && GetCounter(s, key) == 0 < p.limit && o(IncrCall(key)).None?
    ensures Admitted(r) && GetCounter(s, key) == 0 ==> r.store[key].ttl == Some(p.blockDuration)
    ensures Admitted(r) && GetCounter(s, key) > 0 ==> r.store[key].ttl == s[key].ttl
    // only `key` changes, by at most one, and never past the limit
    ensures AgreeExcept(s, r.store, key)
    ensures GetCounter(s, key) <= GetCounter(r.store, key) <= GetCounter(s, key) + 1
    ensures GetCounter(r.store, key) > GetCounter(s, key) ==> GetCounter(r.store, key) <= p.limit
  {
    var read := GetCall(key);
    if o(read).Some? then Outcome(Failure(o(read).value), s, [read])
    else
      var counter := GetCounter(s, key);
      if counter >= p.limit then Outcome(Success(false), s, [read])
      else
        var incr := IncrCall(key);
        if o(incr).Some? then Outcome(Failure(o(incr).value), s, [read, incr])
        else
          var (newCounter, s1) := IncrementCounter(s, key);
          if newCounter != 1 then Outcome(Success(true), s1, [read, incr])
          else
            var arm := ExpireCall(key, p.blockDuration);
            if o(arm).Some? then Outcome(Failure(o(arm).value), s1, [read, incr, arm])
            else Outcome(Success(true), SetExpiration(s1, key, p.blockDuration), [read, incr, arm])
  }

  /** checkIP: an address is counted under its key with the default policy. */
  function CheckIP(rl: RateLimiter, s: Store, ip: string, o: Oracle): Outcome {
    Check(s, KeyOf(Address(ip)), AddressPolicy(rl), o)
  }

  /** checkToken: a token is counted under its key with its resolved policy. */
  function CheckToken(rl: RateLimiter, s: Store, token: string, o: Oracle): Outcome {
    Check(s, KeyOf(Token(token)), TokenPolicy(rl, token), o)
  }

  /** Allow: checks the token when one is given, the address otherwise. The
      decision is the check of the chosen identity's key under that identity's
      policy, so every call goes to that key and no other key changes. */
  function Allow(rl: RateLimiter, s: Store, ip: string, token: string, o: Oracle): (r: Outcome)
    ensures r == Check(s, KeyOf(Subject(ip, token)), PolicyFor(rl, Subject(ip, token)), o)
    ensures forall i | 0 <= i < |r.calls| :: r.calls[i].key == KeyOf(Subject(ip, token))
    ensures AgreeExcept(s, r.store, KeyOf(Subject(ip, token)))
    ensures token != "" ==> forall i | 0 <= i < |r.calls| :: IsTokenKey(r.calls[i].key)
    ensures token == "" ==> forall i | 0 <= i < |r.calls| :: IsAddressKey(r.calls[i].key)
  {
    var r := if token != "" then CheckToken(rl, s, token, o) else CheckIP(rl, s, ip, o);
    assert forall i | 0 <= i < |r.calls| :: r.calls[i] == Protocol(KeyOf(Subject(ip, token)), PolicyFor(rl, Subject(ip, token)))[i];
    r
  }

  /** The answer of a reset: the error, if any, the store after it, and its calls. */
  datatype Ack = Ack(error: Option<Err>, store: Store, calls: seq<Call>)

  /** Reset: deletes the key the precedence rule chooses; with neither a token
      nor an address there is nothing to delete. */
  function Reset(s: Store, ip: string, token: string, o: Oracle): (r: Ack)
    ensures token == "" && ip == "" ==> r == Ack(None, s, [])
    ensures token != "" || ip != "" ==>
              && r.calls == [DeleteCall(KeyOf(Subject(ip, token)))]
              && r.error == o(DeleteCall(KeyOf(Subject(ip, token))))
              && AgreeExcept(s, r.store, KeyOf(Subject(ip, token)))
              && (r.error.None? ==> KeyOf(Subject(ip, token)) !in r.store)
              && (r.error.Some? ==> r.store == s)
  {
    if token != "" then
      var del := DeleteCall(KeyOf(Token(token)));
      if o(del).Some? then Ack(o(del), s, [del]) else Ack(None, Delete(s, del.key), [del])
    else if ip != "" then
      var del := DeleteCall(KeyOf(Address(ip)));
      if o(del).Some? then Ack(o(del), s, [del]) else Ack(None, Delete(s, del.key), [del])
    else Ack(None, s, [])
  }

  /** Token precedence: with a token, the address makes no difference to the
      answer, the store or the calls, and no address key's record changes. */
  lemma TokenPrecedence(rl: RateLimiter, s: Store, ip1: string, ip2: string, token: string, o: Oracle)
    requires token != ""
    ensures Allow(rl, s, ip1, token, o) == Allow(rl, s, ip2, token, o)
    ensures forall k | IsAddressKey(k) :: Find(Allow(rl, s, ip1, token, o).store, k) == Find(s, k)
  {
    var r := Allow(rl, s, ip1, token, o);
    forall k | IsAddressKey(k)
      ensures Find(r.store, k) == Find(s, k)
    {
      assert k != KeyOf(Token(token));
    }
  }

  /** A decision depends only on the record under the chosen key: two stores
      that agree there give the same answer, the same calls and the same record. */
  lemma AllowReadsOnlyItsKey(rl: RateLimiter, s1: Store, s2: Store, ip: string, token: string, o: Oracle)
    requires Find(s1, KeyOf(Subject(ip, token))) == Find(s2, KeyOf(Subject(ip, token)))
    ensures Allow(rl, s1, ip, token, o).result == Allow(rl, s2, ip, token, o).result
    ensures Allow(rl, s1, ip, token, o).calls == Allow(rl, s2, ip, token, o).calls
    ensures var key := KeyOf(Subject(ip, token));
            Find(Allow(rl, s1, ip, token, o).store, key) == Find(Allow(rl, s2, ip, token, o).store, key)
  {
  }

  /** Registering an override for one token changes no decision for another
      token, nor for any address (an empty token registered by mistake included). */
  lemma OverrideIsolation(rl: RateLimiter, a: string, limit: int, blockDuration: int,
                          s: Store, ip: string, token: string, o: Oracle)
    requires token != a || token == ""
    ensures Allow(ConfigureToken(rl, a, limit, blockDuration), s, ip, token, o) == Allow(rl, s, ip, token, o)
  {
    var rl' := ConfigureToken(rl, a, limit, blockDuration);
    if token != "" {
      assert TokenPolicy(rl', token) == TokenPolicy(rl, token);
    }
  }

  /** count <= limit is kept by every decision, whatever the store does. */
  lemma WithinLimitPreserved(rl: RateLimiter, s: Store, ip: string, token: string, o: Oracle)
    requires GetCounter(s, KeyOf(Subject(ip, token))) <= PolicyFor(rl, Subject(ip, token)).limit
    ensures var r := Allow(rl, s, ip, token, o);
            GetCounter(r.store, KeyOf(Subject(ip, token))) <= PolicyFor(rl, Subject(ip, token)).limit
  {
    var key, p := KeyOf(Subject(ip, token)), PolicyFor(rl, Subject(ip, token));
    assert Allow(rl, s, ip, token, o) == Check(s, key, p, o);
  }

  /** After a successful reset the next decision for the same identity opens a
      fresh window: admitted at count 1, with the expiry armed anew. */
  lemma ResetReopensWindow(rl: RateLimiter, s: Store, ip: string, token: string)
    requires ip != "" || token != ""
    requires PolicyFor(rl, Subject(ip, token)).limit >= 1
    ensures var a := Reset(s, ip, token, Reliable);
            var r := Allow(rl, a.store, ip, token, Reliable);
            var key := KeyOf(Subject(ip, token));
            && a.error.None?
            && Admitted(r)
            && r.store[key] == Entry(1, Some(PolicyFor(rl, Subject(ip, token)).blockDuration))
  {
    var key, p := KeyOf(Subject(ip, token)), PolicyFor(rl, Subject(ip, token));
    var a := Reset(s, ip, token, Reliable);
    assert Allow(rl, a.store, ip, token, Reliable) == Check(a.store, key, p, Reliable);
  }

  /** With neither a token nor an address, a decision still counts under the
      key of the empty address, but a reset does not delete that key. */
  lemma ResetWithoutIdentityKeepsEmptyAddress(rl: RateLimiter, s: Store, o: Oracle)
    ensures Reset(s, "", "", o).store == s
    ensures forall i | 0 <= i < |Allow(rl, s, "", "", o).calls| ::
              Allow(rl, s, "", "", o).calls[i].key == IpPrefix
  {
    assert KeyOf(Address("")) == IpPrefix;
  }
}
