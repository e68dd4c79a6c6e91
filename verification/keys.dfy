/** The counter-key namespace of the limiter (internal/limiter/limiter.go):
    an address is counted under `limiter:ip:<ip>` and a token under
    `limiter:token:<token>`. */
module Keys {
  import opened Wrappers

  /** The identity a request is counted under. */
  datatype Identity = Address(ip: string) | Token(token: string)

  const IpPrefix: string := "limiter:ip:"
  const TokenPrefix: string := "limiter:token:"

  /** The store key an identity is counted under: an address's key lies in the
      address namespace and a token's in the token namespace, never the other. */
  function KeyOf(id: Identity): (k: string)
    ensures IsAddressKey(k) <==> id.Address?
    ensures IsTokenKey(k) <==> id.Token?
  {
    assert IpPrefix[8] != TokenPrefix[8];
    match id
    case Address(ip) => IpPrefix + ip
    case Token(token) => TokenPrefix + token
  }

  predicate IsAddressKey(k: string) {
    IpPrefix <= k
  }

  predicate IsTokenKey(k: string) {
    TokenPrefix <= k
  }

  /** Recovers the identity a key was built from; `None` for a key outside the namespace. */
  function ParseKey(k: string): (r: Option<Identity>)
    ensures r.Some? <==> IsAddressKey(k) || IsTokenKey(k)
  {
    if IsAddressKey(k) then Some(Address(k[|IpPrefix|..]))
    else if IsTokenKey(k) then Some(Token(k[|TokenPrefix|..]))
    else None
  }

  /** No key is in both classes: the two prefixes differ at their ninth character. */
  lemma ClassesDisjoint(k: string)
    ensures !(IsAddressKey(k) && IsTokenKey(k))
  {
    if IsAddressKey(k) {
      assert k[8] == IpPrefix[8] == 'i';
    }
  }

  /** Parsing a key recovers the identity it was built from. */
  lemma ParseKeyOf(id: Identity)
    ensures ParseKey(KeyOf(id)) == Some(id)
  {
    match id
    case Address(ip) => assert KeyOf(id)[|IpPrefix|..] == ip;
    case Token(t) => assert KeyOf(id)[|TokenPrefix|..] == t;
  }

  /** Every key in the namespace is the key of the identity it parses to. */
  lemma KeyOfParse(k: string)
    requires ParseKey(k).Some?
    ensures KeyOf(ParseKey(k).value) == k
  {
    if IsAddressKey(k) {
      assert k == k[..|IpPrefix|] + k[|IpPrefix|..];
    } else {
      assert k == k[..|TokenPrefix|] + k[|TokenPrefix|..];
    }
  }

  /** Two requests share a key exactly when they share class and value; in
      particular an address never shares a key with a token of the same text. */
  lemma KeyInjective(a: Identity, b: Identity)
    ensures KeyOf(a) == KeyOf(b) <==> a == b
  {
    if KeyOf(a) == KeyOf(b) {
      ParseKeyOf(a);
      ParseKeyOf(b);
    }
  }
}
