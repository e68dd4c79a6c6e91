/** Runs of consecutive decisions for one identity within one window, with a
    store whose calls all succeed: exactly `limit` admissions, then denials,
    and one arming of the expiry per window. */
module Window {
  import opened Wrappers
  import opened Strategy
  import opened Keys
  import opened Limiter

  /** The answers of `n` consecutive decisions, the store after them, and all the calls issued. */
  datatype Run = Run(answers: seq<bool>, store: Store, calls: seq<Call>)

  function Replay(rl: RateLimiter, s: Store, ip: string, token: string, n: nat): Run
    decreases n
  {
    if n == 0 then Run([], s, [])
    else
      var first := Allow(rl, s, ip, token, Reliable);
      var rest := Replay(rl, first.store, ip, token, n - 1);
      Run([Admitted(first)] + rest.answers, rest.store, first.calls + rest.calls)
  }

  /** The same run, seen as `n` checks of one key under one policy. */
  function Decisions(s: Store, key: string, p: Policy, n: nat): Run
    decreases n
  {
    if n == 0 then Run([], s, [])
    else
      var first := Check(s, key, p, Reliable);
      var rest := Decisions(first.store, key, p, n - 1);
      Run([Admitted(first)] + rest.answers, rest.store, first.calls + rest.calls)
  }

  /** How many times the calls arm an expiry. */
  function Armings(calls: seq<Call>): nat {
    if calls == [] then 0
    else (if calls[0].ExpireCall? then 1 else 0) + Armings(calls[1..])
  }

  function Min(a: int, b: int): int {
    if a <= b then a else b
  }

  lemma {:induction false} ArmingsAppend(a: seq<Call>, b: seq<Call>)
    ensures Armings(a + b) == Armings(a) + Armings(b)
    decreases |a|
  {
    if a != [] {
      assert (a + b)[0] == a[0];
      assert (a + b)[1..] == a[1..] + b;
      ArmingsAppend(a[1..], b);
    } else {
      assert a + b == b;
    }
  }

  /** One reliable check: admitted iff the count is below the limit, and it
      arms the expiry iff it opens the window. */
  lemma CheckStep(s: Store, key: string, p: Policy)
    ensures var c := GetCounter(s, key);
            var r := Check(s, key, p, Reliable);
            && (Admitted(r) <==> c < p.limit)
            && r.result.Success?
            && GetCounter(r.store, key) == (if c < p.limit then c + 1 else c)
            && AgreeExcept(s, r.store, key)
            && Armings(r.calls) == (if c == 0 < p.limit then 1 else 0)
  {
    var r := Check(s, key, p, Reliable);
    assert forall i | 0 <= i < |r.calls| :: r.calls[i] == Protocol(key, p)[i];
    if |r.calls| == 1 {
      assert r.calls == [GetCall(key)];
    } else if |r.calls| == 2 {
      assert r.calls == [GetCall(key), IncrCall(key)];
      assert r.calls[1..] == [IncrCall(key)];
      assert Armings(r.calls[1..][1..]) == 0;
    } else {
      assert r.calls == Protocol(key, p);
      assert r.calls[1..] == [IncrCall(key), ExpireCall(key, p.blockDuration)];
      assert r.calls[1..][1..] == [ExpireCall(key, p.blockDuration)];
      assert r.calls[1..][1..][1..] == [];
      assert Armings(r.calls[1..][1..]) == 1;
      assert Armings(r.calls[1..]) == 1;
    }
  }

  /** One reliable decision: admitted iff the count is below the limit, and it
      arms the expiry iff it opens the window. */
  lemma OneStep(rl: RateLimiter, s: Store, ip: string, token: string)
    ensures var key, p := KeyOf(Subject(ip, token)), PolicyFor(rl, Subject(ip, token));
            var c := GetCounter(s, key);
            var r := Allow(rl, s, ip, token, Reliable);
            && (Admitted(r) <==> c < p.limit)
            && r.result.Success?
            && GetCounter(r.store, key) == (if c < p.limit then c + 1 else c)
            && AgreeExcept(s, r.store, key)
            && Armings(r.calls) == (if c == 0 < p.limit then 1 else 0)
  {
    CheckStep(s, KeyOf(Subject(ip, token)), PolicyFor(rl, Subject(ip, token)));
  }

  /** Repeated decisions for one identity are repeated checks of its key under its policy. */
  lemma {:induction false} ReplayIsDecisions(rl: RateLimiter, s: Store, ip: string, token: string, n: nat)
    ensures Replay(rl, s, ip, token, n) ==
            Decisions(s, KeyOf(Subject(ip, token)), PolicyFor(rl, Subject(ip, token)), n)
    decreases n
  {
    if n > 0 {
      var first := Allow(rl, s, ip, token, Reliable);
      ReplayIsDecisions(rl, first.store, ip, token, n - 1);
    }
  }

  /** n reliable decisions from count c under limit L: the i-th is admitted iff
      c + i < L, the count ends at min(c + n, L) (or stays at c if c >= L), no
      other key changes, and the expiry is armed once iff the run opens the window. */
  lemma ReplayCounts(rl: RateLimiter, s: Store, ip: string, token: string, n: nat)
    ensures var key, p := KeyOf(Subject(ip, token)), PolicyFor(rl, Subject(ip, token));
            var c := GetCounter(s, key);
            var r := Replay(rl, s, ip, token, n);
            && |r.answers| == n
            && (forall i | 0 <= i < n :: r.answers[i] <==> c + i < p.limit)
            && GetCounter(r.store, key) == (if c >= p.limit then c else Min(c + n, p.limit))
            && AgreeExcept(s, r.store, key)
            && Armings(r.calls) == (if n > 0 && c == 0 < p.limit then 1 else 0)
  {
    var key, p := KeyOf(Subject(ip, token)), PolicyFor(rl, Subject(ip, token));
    ReplayIsDecisions(rl, s, ip, token, n);
    DecisionsStore(s, key, p, n);
    DecisionsAnswers(s, key, p, n);
    DecisionsArmings(s, key, p, n);
  }

  /** Where a run leaves the store: only the key changes, and its count ends at
      min(c + n, L), or stays at c if c >= L. */
  lemma {:induction false} DecisionsStore(s: Store, key: string, p: Policy, n: nat)
    ensures var c := GetCounter(s, key);
            var r := Decisions(s, key, p, n);
            && |r.answers| == n
            && GetCounter(r.store, key) == (if c >= p.limit then c else Min(c + n, p.limit))
            && AgreeExcept(s, r.store, key)
    decreases n
  {
    if n > 0 {
      var first := Check(s, key, p, Reliable);
      CheckStep(s, key, p);
      DecisionsStore(first.store, key, p, n - 1);
      AgreeExceptTrans(s, first.store, Decisions(first.store, key, p, n - 1).store, key);
    }
  }

  /** The answers of a run: the i-th check is admitted iff c + i < L. */
  lemma {:induction false} DecisionsAnswers(s: Store, key: string, p: Policy, n: nat)
    ensures var c := GetCounter(s, key);
            var r := Decisions(s, key, p, n);
            && |r.answers| == n
            && (forall i | 0 <= i < n :: r.answers[i] <==> c + i < p.limit)
    decreases n
  {
    if n > 0 {
      var c := GetCounter(s, key);
      var first := Check(s, key, p, Reliable);
      var rest := Decisions(first.store, key, p, n - 1);
      CheckStep(s, key, p);
      DecisionsAnswers(first.store, key, p, n - 1);
      var r := Decisions(s, key, p, n);
      forall i | 0 <= i < n
        ensures r.answers[i] <==> c + i < p.limit
      {
        if i > 0 {
          assert r.answers[i] == rest.answers[i - 1];
        }
      }
    }
  }

  /** The armings of a run: once iff the run opens the window, never otherwise. */
  lemma {:induction false} DecisionsArmings(s: Store, key: string, p: Policy, n: nat)
    ensures var c := GetCounter(s, key);
            Armings(Decisions(s, key, p, n).calls) == (if n > 0 && c == 0 < p.limit then 1 else 0)
    decreases n
  {
    if n > 0 {
      var first := Check(s, key, p, Reliable);
      CheckStep(s, key, p);
      DecisionsArmings(first.store, key, p, n - 1);
      ArmingsAppend(first.calls, Decisions(first.store, key, p, n - 1).calls);
    }
  }

  /** From an absent counter, exactly `limit` consecutive decisions are
      admitted and the next one is denied, with one arming of the expiry. */
  lemma ExactlyLimitAdmitted(rl: RateLimiter, s: Store, ip: string, token: string)
    requires KeyOf(Subject(ip, token)) !in s
    requires PolicyFor(rl, Subject(ip, token)).limit >= 0
    ensures var limit := PolicyFor(rl, Subject(ip, token)).limit;
            var r := Replay(rl, s, ip, token, limit + 1);
            && |r.answers| == limit + 1
            && (forall i | 0 <= i < limit :: r.answers[i])
            && !r.answers[limit]
            && GetCounter(r.store, KeyOf(Subject(ip, token))) == limit
            && Armings(r.calls) == (if limit > 0 then 1 else 0)
  {
    ReplayCounts(rl, s, ip, token, PolicyFor(rl, Subject(ip, token)).limit + 1);
  }

  /** limiter_test.go TestIPRateLimit: limit 5 for an address; five admissions, then a denial. */
  lemma AddressScenario()
    ensures var r := Replay(NewRateLimiter(5, 300), map[], "192.168.1.1", "", 6);
            r.answers == [true, true, true, true, true, false]
  {
    var rl := NewRateLimiter(5, 300);
    ExactlyLimitAdmitted(rl, map[], "192.168.1.1", "");
  }

  /** limiter_test.go TestTokenRateLimit: default limit 5, token limit 10; ten
      admissions with the token, then a denial, whatever the address. */
  lemma TokenScenario(ip: string)
    ensures var rl := ConfigureToken(NewRateLimiter(5, 300), "token123", 10, 600);
            var r := Replay(rl, map[], ip, "token123", 11);
            && |r.answers| == 11
            && (forall i | 0 <= i < 10 :: r.answers[i])
            && !r.answers[10]
            && KeyOf(Token("token123")) in r.store
            && r.store[KeyOf(Token("token123"))].ttl == Some(600)
  {
    var rl := ConfigureToken(NewRateLimiter(5, 300), "token123", 10, 600);
    assert PolicyFor(rl, Subject(ip, "token123")) == Policy(10, 600);
    var r := Replay(rl, map[], ip, "token123", 11);
    ExactlyLimitAdmitted(rl, map[], ip, "token123");
    TtlKeptAfterArming(rl, map[], ip, "token123", 11);
  }

  /** Within one run the time-to-live armed by the first admission stays put. */
  lemma TtlKeptAfterArming(rl: RateLimiter, s: Store, ip: string, token: string, n: nat)
    requires KeyOf(Subject(ip, token)) !in s
    requires n > 0 && PolicyFor(rl, Subject(ip, token)).limit > 0
    ensures var key := KeyOf(Subject(ip, token));
            var r := Replay(rl, s, ip, token, n);
            key in r.store && r.store[key].ttl == Some(PolicyFor(rl, Subject(ip, token)).blockDuration)
  {
    var key, p := KeyOf(Subject(ip, token)), PolicyFor(rl, Subject(ip, token));
    ReplayIsDecisions(rl, s, ip, token, n);
    DecisionsKeepTtl(Check(s, key, p, Reliable).store, key, p, n - 1);
  }

  /** Decisions on a key that already has a count leave its time-to-live alone. */
  lemma KeepsTtl(rl: RateLimiter, s: Store, ip: string, token: string, n: nat)
    requires GetCounter(s, KeyOf(Subject(ip, token))) > 0
    ensures var key := KeyOf(Subject(ip, token));
            var r := Replay(rl, s, ip, token, n);
            key in r.store && r.store[key].ttl == s[key].ttl && GetCounter(r.store, key) > 0
  {
    ReplayIsDecisions(rl, s, ip, token, n);
    DecisionsKeepTtl(s, KeyOf(Subject(ip, token)), PolicyFor(rl, Subject(ip, token)), n);
  }

  lemma {:induction false} DecisionsKeepTtl(s: Store, key: string, p: Policy, n: nat)
    requires GetCounter(s, key) > 0
    ensures var r := Decisions(s, key, p, n);
            key in r.store && r.store[key].ttl == s[key].ttl && GetCounter(r.store, key) > 0
    decreases n
  {
    if n > 0 {
      DecisionsKeepTtl(Check(s, key, p, Reliable).store, key, p, n - 1);
    }
  }

  /** limiter_test.go TestReset: after five admissions and a denial, a reset lets
      the next decision through. */
  lemma ResetScenario()
    ensures var rl := NewRateLimiter(5, 300);
            var r := Replay(rl, map[], "192.168.1.1", "", 6);
            var a := Reset(r.store, "192.168.1.1", "", Reliable);
            !r.answers[5] && Admitted(Allow(rl, a.store, "192.168.1.1", "", Reliable))
  {
    var rl := NewRateLimiter(5, 300);
    var r := Replay(rl, map[], "192.168.1.1", "", 6);
    ExactlyLimitAdmitted(rl, map[], "192.168.1.1", "");
    ResetReopensWindow(rl, r.store, "192.168.1.1", "");
  }

  /** middleware_test.go: two addresses under limit 1 are counted apart, so
      exhausting one leaves the other admitted. */
  lemma DistinctAddressesScenario(ip1: string, ip2: string)
    requires ip1 != ip2
    ensures var rl := NewRateLimiter(1, 300);
            var r := Replay(rl, map[], ip1, "", 2);
            r.answers == [true, false] && Admitted(Allow(rl, r.store, ip2, "", Reliable))
  {
    var rl := NewRateLimiter(1, 300);
    var r := Replay(rl, map[], ip1, "", 2);
    ReplayCounts(rl, map[], ip1, "", 2);
    KeyInjective(Address(ip1), Address(ip2));
    assert Find(r.store, KeyOf(Address(ip2))) == None;
    OneStep(rl, r.store, ip2, "");
  }
}
