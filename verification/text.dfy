/** The Go standard-library string procedures the client-address extraction
    relies on: `strings.Split`, `strings.TrimSpace`, `net.SplitHostPort` and
    its inverse `net.JoinHostPort`. Strings are sequences of Unicode code points. */
module Text {
  import opened Wrappers

  /** Position of the first `c` in `s`, or -1. */
  function IndexOf(s: string, c: char): (i: int)
    ensures -1 <= i < |s|
    ensures i == -1 <==> c !in s
    ensures 0 <= i ==> s[i] == c && c !in s[..i]
  {
    if |s| == 0 then -1
    else if s[0] == c then 0
    else
      var j := IndexOf(s[1..], c);
      if j < 0 then -1 else j + 1
  }

  /** Position of the last `c` in `s`, or -1. */
  function LastIndexOf(s: string, c: char): (i: int)
    ensures -1 <= i < |s|
    ensures i == -1 <==> c !in s
    ensures 0 <= i ==> s[i] == c && c !in s[i + 1..]
  {
    if |s| == 0 then -1
    else if s[|s| - 1] == c then |s| - 1
    else LastIndexOf(s[..|s| - 1], c)
  }

  /** strings.Join with a one-character separator. */
  function Join(parts: seq<string>, sep: char): string {
    if |parts| == 0 then ""
    else if |parts| == 1 then parts[0]
    else parts[0] + [sep] + Join(parts[1..], sep)
  }

  /** strings.Split with a one-character separator: the fields between
      separators, at least one of them, which joined back give `s`. */
  function Split(s: string, sep: char): (parts: seq<string>)
    ensures |parts| >= 1
    ensures forall i | 0 <= i < |parts| :: sep !in parts[i]
    ensures Join(parts, sep) == s
    decreases |s|
  {
    var i := IndexOf(s, sep);
    if i < 0 then [s]
    else
      var rest := Split(s[i + 1..], sep);
      assert s == s[..i] + [sep] + s[i + 1..];
      assert ([s[..i]] + rest)[1..] == rest;
      [s[..i]] + rest
  }

  /** The first field of a split is everything before the first separator. */
  lemma SplitFirst(s: string, sep: char)
    ensures Split(s, sep)[0] == (if sep in s then s[..IndexOf(s, sep)] else s)
  {
  }

  /** Splitting separator-free fields that were joined gives the fields back. */
  lemma {:induction false} SplitJoin(parts: seq<string>, sep: char)
    requires |parts| >= 1
    requires forall i | 0 <= i < |parts| :: sep !in parts[i]
    ensures Split(Join(parts, sep), sep) == parts
    decreases |parts|
  {
    if |parts| > 1 {
      SplitCons(parts[0], Join(parts[1..], sep), sep);
      SplitJoin(parts[1..], sep);
      assert parts == [parts[0]] + parts[1..];
    }
  }

  /** A separator-free field followed by the separator splits off as the first field. */
  lemma SplitCons(head: string, tail: string, sep: char)
    requires sep !in head
    ensures Split(head + [sep] + tail, sep) == [head] + Split(tail, sep)
  {
    var s := head + [sep] + tail;
    assert s[..|head|] == head;
    IndexOfAt(s, sep, |head|);
    assert s[|head| + 1..] == tail;
  }

  /** unicode.IsSpace: the C0 spacing controls, NEL, and the separators of category Z. */
  predicate IsSpace(c: char) {
    || c == ' ' || c == '\t' || c == '\n' || c == '\r' || c == '\U{000B}' || c == '\U{000C}'
    || c == '\U{0085}' || c == '\U{00A0}' || c == '\U{1680}'
    || ('\U{2000}' <= c <= '\U{200A}')
    || c == '\U{2028}' || c == '\U{2029}' || c == '\U{202F}' || c == '\U{205F}' || c == '\U{3000}'
  }

  predicate AllSpace(s: string) {
    forall i | 0 <= i < |s| :: IsSpace(s[i])
  }

  /** No space at either end. */
  predicate Trimmed(s: string) {
    s == [] || (!IsSpace(s[0]) && !IsSpace(s[|s| - 1]))
  }

  /** The first index from `i` on that does not hold space, or |s|. */
  function SkipSpace(s: string, i: nat): (j: nat)
    requires i <= |s|
    ensures i <= j <= |s|
    ensures forall k | i <= k < j :: IsSpace(s[k])
    ensures j < |s| ==> !IsSpace(s[j])
    decreases |s| - i
  {
    if i < |s| && IsSpace(s[i]) then SkipSpace(s, i + 1) else i
  }

  /** Scanning back from `j`, no lower than `lo`: the index just past the last
      character that is not space, or `lo`. */
  function BackSpace(s: string, lo: nat, j: nat): (k: nat)
    requires lo <= j <= |s|
    ensures lo <= k <= j
    ensures forall m | k <= m < j :: IsSpace(s[m])
    ensures k > lo ==> !IsSpace(s[k - 1])
    decreases j
  {
    if j > lo && IsSpace(s[j - 1]) then BackSpace(s, lo, j - 1) else j
  }

  /** strings.TrimSpace: skip the leading space forward, then the trailing
      space backward, no further than where the forward scan stopped. */
  function TrimSpace(s: string): (r: string)
    ensures Trimmed(r)
    ensures |r| <= |s|
  {
    var start := SkipSpace(s, 0);
    s[start..BackSpace(s, start, |s|)]
  }

  /** Trimming only removes space from the ends: the input is its leading
      space, the result, and its trailing space, in that order. */
  lemma TrimSpaceInfix(s: string)
    ensures var r, a := TrimSpace(s), SkipSpace(s, 0);
            && a + |r| <= |s|
            && r == s[a..a + |r|]
            && AllSpace(s[..a]) && AllSpace(s[a + |r|..])
  {
    var a := SkipSpace(s, 0);
    var b := BackSpace(s, a, |s|);
    assert forall k | 0 <= k < a :: s[..a][k] == s[k];
    assert forall k | 0 <= k < |s| - b :: s[b..][k] == s[b + k];
  }

  /** The forward scan stops at the first character that is not space. */
  lemma SkipSpaceAt(s: string, i: nat, n: nat)
    requires i <= n <= |s|
    requires forall k | i <= k < n :: IsSpace(s[k])
    requires n < |s| ==> !IsSpace(s[n])
    ensures SkipSpace(s, i) == n
  {
  }

  /** The backward scan stops just past the last character that is not space. */
  lemma BackSpaceAt(s: string, lo: nat, j: nat, k: nat)
    requires lo <= k <= j <= |s|
    requires forall m | k <= m < j :: IsSpace(s[m])
    requires k > lo ==> !IsSpace(s[k - 1])
    ensures BackSpace(s, lo, j) == k
  {
  }

  /** TrimSpace removes exactly the surrounding space: a trimmed core wrapped in
      space on either side comes back unchanged. */
  lemma TrimSpaceStrips(lead: string, core: string, trail: string)
    requires AllSpace(lead) && AllSpace(trail) && Trimmed(core)
    ensures TrimSpace(lead + core + trail) == core
  {
    var s := lead + core + trail;
    var n := |lead| + |core|;
    assert forall k | 0 <= k < |lead| :: s[k] == lead[k];
    assert forall k | |lead| <= k < n :: s[k] == core[k - |lead|];
    assert forall m | n <= m < |s| :: s[m] == trail[m - n];
    if core == [] {
      SkipSpaceAt(s, 0, |s|);
      BackSpaceAt(s, |s|, |s|, |s|);
    } else {
      SkipSpaceAt(s, 0, |lead|);
      BackSpaceAt(s, |lead|, |s|, n);
      assert s[|lead|..n] == core;
    }
  }

  /** Trimming is idempotent. */
  lemma TrimSpaceIdempotent(s: string)
    ensures TrimSpace(TrimSpace(s)) == TrimSpace(s)
  {
    var r := TrimSpace(s);
    assert [] + r + [] == r;
    TrimSpaceStrips([], r, []);
  }

  /** The ways net.SplitHostPort rejects an address. */
  datatype AddrError =
    | MissingPort
    | TooManyColons
    | MissingBracket
    | UnexpectedOpenBracket
    | UnexpectedCloseBracket

  datatype HostPort = HostPort(host: string, port: string)

  /** net.SplitHostPort: the port follows the last colon; a host holding colons
      must be bracketed, with the closing bracket right before that colon; no
      other bracket may appear. */
  function SplitHostPort(hostport: string): (r: Result<HostPort, AddrError>)
    ensures r.Success? ==>
              || hostport == r.value.host + ":" + r.value.port
              || hostport == "[" + r.value.host + "]:" + r.value.port
    ensures r.Success? ==> ':' !in r.value.port && '[' !in r.value.host && ']' !in r.value.host
    ensures r.Success? ==> '[' !in r.value.port && ']' !in r.value.port
    ensures r.Success? && hostport != [] && hostport[0] != '[' ==> ':' !in r.value.host
    ensures ':' !in hostport ==> r == Failure(MissingPort)
  {
    var i := LastIndexOf(hostport, ':');
    if i < 0 then Failure(MissingPort)
    else if hostport[0] == '[' then
      var end := IndexOf(hostport, ']');
      if end < 0 then Failure(MissingBracket)
      else if end + 1 == |hostport| then Failure(MissingPort)
      else if end + 1 != i then
        if hostport[end + 1] == ':' then Failure(TooManyColons) else Failure(MissingPort)
      else
        assert hostport == "[" + hostport[1..end] + "]:" + hostport[i + 1..];
        FinishSplit(hostport, hostport[1..end], 1, end + 1, i)
    else
      var host := hostport[..i];
      if IndexOf(host, ':') >= 0 then Failure(TooManyColons)
      else
        assert hostport == host + ":" + hostport[i + 1..];
        FinishSplit(hostport, host, 0, 0, i)
  }

  /** The common tail of SplitHostPort: no '[' from position j, no ']' from position k. */
  function FinishSplit(hostport: string, host: string, j: nat, k: nat, i: nat): (r: Result<HostPort, AddrError>)
    requires i < |hostport|
    requires j == 1 ==> 2 <= k <= i && host == hostport[1..k - 1] && ']' !in host
    requires j == 0 ==> k == 0 && host == hostport[..i]
    requires j <= 1
    ensures r.Success? ==> r.value == HostPort(host, hostport[i + 1..])
    ensures r.Success? ==> '[' !in host && ']' !in host
    ensures r.Success? ==> '[' !in r.value.port && ']' !in r.value.port
  {
    if IndexOf(hostport[j..], '[') >= 0 then Failure(UnexpectedOpenBracket)
    else if IndexOf(hostport[k..], ']') >= 0 then Failure(UnexpectedCloseBracket)
    else
      assert host == hostport[j..][..|host|];
      assert j == 0 ==> host == hostport[k..][..|host|];
      assert hostport[i + 1..] == hostport[j..][i + 1 - j..];
      assert hostport[i + 1..] == hostport[k..][i + 1 - k..];
      Success(HostPort(host, hostport[i + 1..]))
  }

  /** The last `c` is at n when s[n] is `c` and none follows. */
  lemma LastIndexOfAt(s: string, c: char, n: nat)
    requires n < |s| && s[n] == c && c !in s[n + 1..]
    ensures LastIndexOf(s, c) == n
  {
    assert c in s;
    var i := LastIndexOf(s, c);
    assert forall x | n < x < |s| :: s[x] == s[n + 1..][x - n - 1];
    assert forall x | i < x < |s| :: s[x] == s[i + 1..][x - i - 1];
  }

  /** The first `c` is at n when s[n] is `c` and none precedes. */
  lemma IndexOfAt(s: string, c: char, n: nat)
    requires n < |s| && s[n] == c && c !in s[..n]
    ensures IndexOf(s, c) == n
  {
    assert c in s;
    var i := IndexOf(s, c);
    assert forall x | 0 <= x < n :: s[x] == s[..n][x];
    assert forall x | 0 <= x < i :: s[x] == s[..i][x];
  }

  /** net.JoinHostPort: a host holding a colon is taken as an IPv6 literal and bracketed. */
  function JoinHostPort(host: string, port: string): string {
    if ':' in host then "[" + host + "]:" + port else host + ":" + port
  }

  /** Splitting a joined address gives back its host and port, for any host
      without brackets and any port without colons or brackets. */
  lemma SplitJoinHostPort(host: string, port: string)
    requires '[' !in host && ']' !in host
    requires ':' !in port && '[' !in port && ']' !in port
    ensures SplitHostPort(JoinHostPort(host, port)) == Success(HostPort(host, port))
  {
    if ':' in host {
      SplitBracketed(host, port);
    } else {
      SplitPlain(host, port);
    }
  }

  /** A bracketed host splits back out whether or not it holds a colon:
      `[a]:80` gives ("a", "80"). */
  lemma SplitBracketed(host: string, port: string)
    requires '[' !in host && ']' !in host
    requires ':' !in port && '[' !in port && ']' !in port
    ensures SplitHostPort("[" + host + "]:" + port) == Success(HostPort(host, port))
  {
    var hp := "[" + host + "]:" + port;
    var n := |host|;
    BracketedPositions(host, port);
    assert hp[0] == '[' && n + 2 != |hp|;
    assert hp[1..n + 1] == host;
    assert SplitHostPort(hp) == FinishSplit(hp, host, 1, n + 2, n + 2);
    BracketedFinish(host, port);
  }

  lemma BracketedPositions(host: string, port: string)
    requires ']' !in host && ':' !in port
    ensures LastIndexOf("[" + host + "]:" + port, ':') == |host| + 2
    ensures IndexOf("[" + host + "]:" + port, ']') == |host| + 1
  {
    var hp := "[" + host + "]:" + port;
    BracketedLastColon(hp, host, port);
    BracketedFirstClose(hp, host, port);
  }

  lemma BracketedLastColon(hp: string, host: string, port: string)
    requires hp == "[" + host + "]:" + port
    requires ':' !in port
    ensures LastIndexOf(hp, ':') == |host| + 2
  {
    assert hp[|host| + 2] == ':';
    assert hp[|host| + 3..] == port;
    LastIndexOfAt(hp, ':', |host| + 2);
  }

  lemma BracketedFirstClose(hp: string, host: string, port: string)
    requires hp == "[" + host + "]:" + port
    requires ']' !in host
    ensures IndexOf(hp, ']') == |host| + 1
  {
    assert hp[|host| + 1] == ']';
    assert hp[..|host| + 1] == "[" + host;
    IndexOfAt(hp, ']', |host| + 1);
  }

  lemma BracketedFinish(host: string, port: string)
    requires '[' !in host && ']' !in host
    requires '[' !in port && ']' !in port
    ensures var hp := "[" + host + "]:" + port;
            FinishSplit(hp, host, 1, |host| + 2, |host| + 2) == Success(HostPort(host, port))
  {
    var hp := "[" + host + "]:" + port;
    var n := |host|;
    assert hp[1..n + 1] == host;
    assert hp[1..] == host + "]:" + port;
    assert hp[n + 2..] == ":" + port;
    assert hp[n + 3..] == port;
  }

  lemma SplitPlain(host: string, port: string)
    requires ':' !in host && '[' !in host && ']' !in host
    requires ':' !in port && '[' !in port && ']' !in port
    ensures SplitHostPort(host + ":" + port) == Success(HostPort(host, port))
  {
    var hp := host + ":" + port;
    var n := |host|;
    assert hp[n + 1..] == port;
    LastIndexOfAt(hp, ':', n);
    assert hp[..n] == host;
    if n > 0 {
      assert hp[0] == host[0];
    }
    assert '[' !in hp && ']' !in hp;
    assert hp[0..] == hp;
  }
}
