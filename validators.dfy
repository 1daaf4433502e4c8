/** `validate_ip_and_port`: locate the host and the optional port of a URL
    with the pattern `https?://(\[.*?\]|[^:/]+)(?::(\d+))?`, searched for
    leftmost-first anywhere in the URL; then check a bracketed host of hex
    digits, colons, dots and percent signs as an IPv6 address, a dotted quad
    of one to three digits per group as an IPv4 address, and the port as a
    u16. The first error found is the result. */
module Validators {
  import opened Text

  /** The two capture groups of the URL pattern: group 1 (the host, brackets
      included) and group 2 (the port digits), which may not participate. */
  datatype Captures = Captures(host: string, port: Option<string>)

  datatype HostError = InvalidIpv6 | InvalidIpv4 | InvalidPort

  datatype Verdict = Valid | Invalid(error: HostError)

  /** The text of each error; the three are worded alike and tell the
      errors apart. */
  function Message(e: HostError): (m: string)
    ensures StartsWith(m, "The URL contains an invalid ")
  {
    match e
    case InvalidIpv6 => "The URL contains an invalid IPv6 address."
    case InvalidIpv4 => "The URL contains an invalid IPv4 address."
    case InvalidPort => "The URL contains an invalid port number."
  }

  /** Distinct errors print distinct messages. */
  lemma MessageNamesError(e: HostError, e': HostError)
    requires Message(e) == Message(e')
    ensures e == e'
  {
    var m, m' := Message(e), Message(e');
    assert m[28] == m'[28];
    assert m[31] == m'[31];
  }

  // ---------------------------------------------------------------------
  // The URL pattern, scanned by hand
  // ---------------------------------------------------------------------

  /** Length of `https?://` matched at position `i`, or 0 when it does not
      match there. Once `https://` is seen, backing off to `http` cannot
      help, because `s` is not `:`. */
  function SchemeLength(url: string, i: nat): (n: nat)
    requires i <= |url|
    ensures n == 0 || n == 7 || n == 8
  {
    if StartsWith(url[i..], "https://") then 8
    else if StartsWith(url[i..], "http://") then 7
    else 0
  }

  /** `\[.*?\]` matches `url[p..e]`: the lazy `.*?` stops at the first `]`,
      and `.` matches anything but a line feed. */
  predicate BracketHostAt(url: string, p: nat, e: nat) {
    && p + 2 <= e <= |url|
    && url[p] == '['
    && url[e - 1] == ']'
    && ']' !in url[p + 1..e - 1]
    && '\n' !in url[p + 1..e - 1]
  }

  /** The greedy `[^:/]+` matches `url[p..e]` and cannot be extended. */
  predicate PlainHostAt(url: string, p: nat, e: nat) {
    && p < e <= |url|
    && ':' !in url[p..e]
    && '/' !in url[p..e]
    && (e == |url| || url[e] == ':' || url[e] == '/')
  }

  /** Index of the first `]` at or after `k` when no line feed comes before it. */
  function CloseBracket(s: string, k: nat): (r: Option<nat>)
    requires k <= |s|
    ensures r.Some? ==> k <= r.value < |s| && s[r.value] == ']'
    ensures r.Some? ==> ']' !in s[k..r.value] && '\n' !in s[k..r.value]
    ensures r.None? ==> forall c :: k <= c < |s| && s[c] == ']' ==> '\n' in s[k..c]
    decreases |s| - k
  {
    if k == |s| then None
    else if s[k] == ']' then Some(k)
    else if s[k] == '\n' then None
    else
      var r := CloseBracket(s, k + 1);
      assert r.Some? ==> s[k..r.value] == [s[k]] + s[k + 1..r.value];
      assert forall c :: k + 1 <= c <= |s| ==> s[k..c] == [s[k]] + s[k + 1..c];
      r
  }

  /** End of the longest run starting at `k` that holds no `:` and no `/`. */
  function RunEnd(s: string, k: nat): (e: nat)
    requires k <= |s|
    ensures k <= e <= |s|
    ensures ':' !in s[k..e] && '/' !in s[k..e]
    ensures e == |s| || s[e] == ':' || s[e] == '/'
    decreases |s| - k
  {
    if k == |s| || s[k] == ':' || s[k] == '/' then k
    else
      var e := RunEnd(s, k + 1);
      assert s[k..e] == [s[k]] + s[k + 1..e];
      e
  }

  /** End of the longest run of digits starting at `k`. */
  function DigitsEnd(s: string, k: nat): (e: nat)
    requires k <= |s|
    ensures k <= e <= |s|
    ensures AllDigits(s[k..e])
    ensures e == |s| || !IsDigit(s[e])
    decreases |s| - k
  {
    if k == |s| || !IsDigit(s[k]) then k
    else
      var e := DigitsEnd(s, k + 1);
      assert s[k..e] == [s[k]] + s[k + 1..e];
      e
  }

  /** End of capture group 1 when the host starts at `p`, or `p` itself when
      neither alternative matches there. The bracketed alternative is tried
      first and wins whenever it matches; the plain one is used only when no
      bracketed host exists at `p`. */
  function HostEnd(url: string, p: nat): (e: nat)
    requires p <= |url|
    ensures p <= e <= |url|
    ensures forall b: nat :: BracketHostAt(url, p, b) ==> e == b
    ensures e > p && !BracketHostAt(url, p, e) ==>
      PlainHostAt(url, p, e) && forall b: nat :: !BracketHostAt(url, p, b)
    ensures e == p <==> (p == |url| || url[p] == ':' || url[p] == '/')
  {
    if p < |url| && url[p] == '[' && CloseBracket(url, p + 1).Some? then
      var c := CloseBracket(url, p + 1).value;
      assert url[p + 1..c + 1 - 1] == url[p + 1..c];
      assert forall b: nat :: BracketHostAt(url, p, b) ==> b == c + 1 by {
        forall b: nat | BracketHostAt(url, p, b) ensures b == c + 1 {
        }
      }
      c + 1
    else
      assert forall b: nat :: !BracketHostAt(url, p, b) by {
        forall b: nat ensures !BracketHostAt(url, p, b) {
        }
      }
      RunEnd(url, p)
  }

  /** A greedy run has one end only. */
  lemma PlainHostUnique(url: string, p: nat, e1: nat, e2: nat)
    requires PlainHostAt(url, p, e1) && PlainHostAt(url, p, e2)
    ensures e1 == e2
  {
  }

  /** Group 2: the digits after a `:` that directly follows the host, if any. */
  function PortAt(url: string, e: nat): (r: Option<string>)
    requires e <= |url|
    ensures r.Some? <==> e + 1 < |url| && url[e] == ':' && IsDigit(url[e + 1])
    ensures r.Some? ==> |r.value| >= 1 && AllDigits(r.value)
    ensures r.Some? ==> var q := e + 1 + |r.value|;
      q <= |url| && url[e + 1..q] == r.value && (q == |url| || !IsDigit(url[q]))
  {
    if e < |url| && url[e] == ':' then
      var q := DigitsEnd(url, e + 1);
      if q > e + 1 then Some(url[e + 1..q]) else None
    else None
  }

  /** The pattern matched with its first character at `i`, if it matches there. */
  function MatchAt(url: string, i: nat): (m: Option<Captures>)
    requires i <= |url|
    ensures m.Some? ==> |m.value.host| >= 1
    ensures m.Some? && m.value.port.Some? ==> |m.value.port.value| >= 1 && AllDigits(m.value.port.value)
  {
    var n := SchemeLength(url, i);
    if n == 0 then None
    else
      var p := i + n;
      var e := HostEnd(url, p);
      if e == p then None else Some(Captures(url[p..e], PortAt(url, e)))
  }

  /** The pattern matches at `i` exactly when `https?://` does and a
      non-empty host follows it; group 1 is then the host up to `HostEnd`,
      and group 2 the port `PortAt` finds after it. */
  lemma MatchAtCaptures(url: string, i: nat)
    requires i <= |url|
    ensures MatchAt(url, i).Some? <==>
      SchemeLength(url, i) > 0 && HostEnd(url, i + SchemeLength(url, i)) > i + SchemeLength(url, i)
    ensures MatchAt(url, i).Some? ==>
      var p := i + SchemeLength(url, i);
      var e := HostEnd(url, p);
      MatchAt(url, i).value == Captures(url[p..e], PortAt(url, e))
  {
  }

  /** `Regex::captures`: the match that starts leftmost, searched from `i` on. */
  function Search(url: string, i: nat): (m: Option<Captures>)
    requires i <= |url|
    ensures m.Some? && m.value.port.Some? ==> |m.value.port.value| >= 1 && AllDigits(m.value.port.value)
    decreases |url| - i
  {
    if i == |url| then None
    else
      match MatchAt(url, i)
      case Some(c) => Some(c)
      case None => Search(url, i + 1)
  }

  /** The result at the first position from `i` below `n` where `f` gives
      one: the shape of a leftmost search. */
  function FirstHit<T>(f: nat -> Option<T>, i: nat, n: nat): Option<T>
    decreases n - i
  {
    if i >= n then None
    else if f(i).Some? then f(i)
    else FirstHit(f, i + 1, n)
  }

  lemma {:induction false} FirstHitNone<T>(f: nat -> Option<T>, i: nat, n: nat)
    ensures FirstHit(f, i, n).None? <==> forall j :: i <= j < n ==> f(j).None?
    decreases n - i
  {
    if i < n {
      FirstHitNone(f, i + 1, n);
      if f(i).Some? {
        assert i <= i < n && f(i).Some?;
      }
    }
  }

  lemma {:induction false} FirstHitLeftmost<T>(f: nat -> Option<T>, i: nat, n: nat)
    ensures FirstHit(f, i, n).Some? ==>
      exists j :: i <= j < n && FirstHit(f, i, n) == f(j) && forall k :: i <= k < j ==> f(k).None?
    decreases n - i
  {
    if i < n && f(i).None? {
      FirstHitLeftmost(f, i + 1, n);
      if FirstHit(f, i, n).Some? {
        var j :| i + 1 <= j < n && FirstHit(f, i + 1, n) == f(j) && forall k :: i + 1 <= k < j ==> f(k).None?;
        assert forall k :: i <= k < j ==> f(k).None?;
      }
    }
  }

  /** The pattern tried at every position of `url` (no match past its end). */
  function Matches(url: string): nat -> Option<Captures> {
    (j: nat) => if j <= |url| then MatchAt(url, j) else None
  }

  lemma {:induction false} SearchIsFirstHit(url: string, i: nat)
    requires i <= |url|
    ensures Search(url, i) == FirstHit(Matches(url), i, |url|)
    decreases |url| - i
  {
    if i < |url| {
      SearchIsFirstHit(url, i + 1);
      assert Matches(url)(i) == MatchAt(url, i);
    }
  }

  /** The search finds nothing exactly when the pattern matches at no
      position from `i` on. */
  lemma SearchNone(url: string, i: nat)
    requires i <= |url|
    ensures Search(url, i).None? <==> forall j :: i <= j < |url| ==> MatchAt(url, j).None?
  {
    SearchIsFirstHit(url, i);
    FirstHitNone(Matches(url), i, |url|);
    assert forall j :: i <= j < |url| ==> Matches(url)(j) == MatchAt(url, j);
  }

  /** A match the search returns is the match at the leftmost position
      where the pattern matches. */
  lemma SearchLeftmost(url: string, i: nat)
    requires i <= |url|
    ensures Search(url, i).Some? ==>
      exists j :: i <= j < |url| && Search(url, i) == MatchAt(url, j) && forall k :: i <= k < j ==> MatchAt(url, k).None?
  {
    SearchIsFirstHit(url, i);
    FirstHitLeftmost(Matches(url), i, |url|);
    assert forall j :: i <= j < |url| ==> Matches(url)(j) == MatchAt(url, j);
  }

  function FindCaptures(url: string): (m: Option<Captures>)
    ensures m.Some? && m.value.port.Some? ==> |m.value.port.value| >= 1 && AllDigits(m.value.port.value)
  {
    Search(url, 0)
  }

  /** In a URL that begins with the scheme (as every URL that reaches the
      validator from the command line does), a bracketed host that closes at
      its first `]` is group 1, and the port is the digits after a `:` that
      follows it. */
  lemma BracketedHostCaptured(url: string, e: nat)
    requires SchemeLength(url, 0) > 0
    requires BracketHostAt(url, SchemeLength(url, 0), e)
    ensures FindCaptures(url) == Some(Captures(url[SchemeLength(url, 0)..e], PortAt(url, e)))
  {
  }

  /** Without a bracketed host, group 1 is the longest run after the scheme
      holding no `:` and no `/`. */
  lemma PlainHostCaptured(url: string, e: nat)
    requires SchemeLength(url, 0) > 0
    requires forall b: nat :: !BracketHostAt(url, SchemeLength(url, 0), b)
    requires PlainHostAt(url, SchemeLength(url, 0), e)
    ensures FindCaptures(url) == Some(Captures(url[SchemeLength(url, 0)..e], PortAt(url, e)))
  {
    var p := SchemeLength(url, 0);
    var h := HostEnd(url, p);
    PlainHostUnique(url, p, h, e);
  }

  /** When a `:` or a `/` or nothing follows the scheme, no match starts at
      the front and the search goes on from the next position. */
  lemma NoHostAfterScheme(url: string)
    requires SchemeLength(url, 0) > 0
    requires SchemeLength(url, 0) == |url| || url[SchemeLength(url, 0)] == ':' || url[SchemeLength(url, 0)] == '/'
    ensures FindCaptures(url) == Search(url, 1)
  {
  }

  /** The same facts written over the pieces of the URL: after the scheme,
      a host that does not start with `[` and holds no `:` or `/` is group 1
      in full when what follows it is empty or starts with `:` or `/`. */
  lemma PlainHostUrl(scheme: string, host: string, rest: string)
    requires scheme == "http://" || scheme == "https://"
    requires |host| >= 1 && host[0] != '[' && ':' !in host && '/' !in host
    requires rest == [] || rest[0] == ':' || rest[0] == '/'
    ensures var url := scheme + host + rest;
      FindCaptures(url) == Some(Captures(host, PortAt(url, |scheme| + |host|)))
  {
    var url := scheme + host + rest;
    var p := |scheme|;
    assert url[..|scheme|] == scheme;
    assert url[0..] == url;
    if scheme == "http://" {
      assert url[4] == ':';
    }
    assert SchemeLength(url, 0) == p;
    assert url[p..p + |host|] == host;
    assert url[p] == host[0];
    PlainHostCaptured(url, p + |host|);
  }

  /** A bracketed host whose interior holds no `]` and no line feed is group 1
      in full, brackets included, whatever follows it. */
  lemma BracketHostUrl(scheme: string, inner: string, rest: string)
    requires scheme == "http://" || scheme == "https://"
    requires ']' !in inner && '\n' !in inner
    ensures var host := "[" + inner + "]";
      var url := scheme + host + rest;
      FindCaptures(url) == Some(Captures(host, PortAt(url, |scheme| + |host|)))
  {
    var host := "[" + inner + "]";
    var url := scheme + host + rest;
    var p := |scheme|;
    var e := p + |host|;
    assert url[..|scheme|] == scheme;
    assert url[0..] == url;
    if scheme == "http://" {
      assert url[4] == ':';
    }
    assert url[p..e] == host;
    assert url[p + 1..e - 1] == inner;
    BracketedHostCaptured(url, e);
  }

  /** Digits running to the end of the URL after the host's `:` are the port. */
  lemma PortToEnd(url: string, e: nat)
    requires e + 1 < |url| && url[e] == ':' && AllDigits(url[e + 1..])
    ensures PortAt(url, e) == Some(url[e + 1..])
  {
    assert IsDigit(url[e + 1..][0]);
    assert forall j :: e + 1 <= j < |url| ==> IsDigit(url[j]) by {
      forall j | e + 1 <= j < |url| ensures IsDigit(url[j]) {
        assert url[e + 1..][j - (e + 1)] == url[j];
      }
    }
    var r := PortAt(url, e);
    assert r.Some?;
    var q := e + 1 + |r.value|;
    assert q == |url|;
    assert url[e + 1..q] == url[e + 1..];
  }

  // ---------------------------------------------------------------------
  // Host shapes and the std address parsers
  // ---------------------------------------------------------------------

  predicate Ipv6Char(c: char) {
    IsDigit(c) || 'a' <= c <= 'f' || 'A' <= c <= 'F' || c == ':' || c == '.' || c == '%'
  }

  /** `^\[([a-fA-F0-9:.%]+)\]$`. A bracketed host never matches the IPv4
      pattern, so at most one of the two address checks applies. */
  function Ipv6Shape(host: string): (ok: bool)
    ensures ok ==> !Ipv4Shape(host)
  {
    && |host| >= 3
    && host[0] == '['
    && (NonDigitStartNotIpv4(host);
        && host[|host| - 1] == ']'
        && forall i :: 1 <= i < |host| - 1 ==> Ipv6Char(host[i]))
  }

  /** The text between the brackets, handed to the IPv6 parser. */
  function Interior(host: string): (s: string)
    requires |host| >= 2
    ensures |s| == |host| - 2
    ensures host == [host[0]] + s + [host[|host| - 1]]
  {
    host[1..|host| - 1]
  }

  /** `^\d{1,3}(\.\d{1,3}){3}$`: four dot-separated groups of one to three digits. */
  function Ipv4Shape(host: string): (ok: bool)
    ensures ok ==> 7 <= |host| <= 15
  {
    var g := Split(host, '.');
    SplitJoin(host, '.');
    |g| == 4 && (JoinFourLength(g, '.');
      forall k :: 0 <= k < 4 ==> 1 <= |g[k]| <= 3 && AllDigits(g[k]))
  }

  lemma JoinFourLength(g: seq<string>, sep: char)
    requires |g| == 4
    ensures |Join(g, sep)| == |g[0]| + |g[1]| + |g[2]| + |g[3]| + 3
  {
    assert g[1..][1..] == g[2..] && g[2..][1..] == g[3..];
    assert Join(g[3..], sep) == g[3];
    assert |Join(g[2..], sep)| == |g[2]| + 1 + |g[3]|;
    assert |Join(g[1..], sep)| == |g[1]| + 1 + |Join(g[2..], sep)|;
  }

  /** A dotted quad starts with a digit, so it is never bracketed: the two
      shapes exclude each other and the order of the checks does not matter. */
  lemma Ipv4ShapeStartsWithDigit(host: string)
    requires Ipv4Shape(host)
    ensures |host| >= 1 && IsDigit(host[0])
  {
    var i := IndexOf(host, '.');
    assert Split(host, '.')[0] == host[..i];
    assert host[..i][0] == host[0];
  }

  /** A host that starts with anything but a digit (a name, a bracket) is
      never taken for an IPv4 address. */
  lemma NonDigitStartNotIpv4(host: string)
    requires |host| >= 1 && !IsDigit(host[0])
    ensures !Ipv4Shape(host)
  {
    if Ipv4Shape(host) {
      Ipv4ShapeStartsWithDigit(host);
    }
  }

  /** A host with other than three dots is never taken for an IPv4 address
      (so `1.2.3` and `1.2.3.4.5` are left to the name resolver). */
  lemma {:induction false} NotThreeDotsNotIpv4(host: string)
    requires Count(host, '.') != 3
    ensures !Ipv4Shape(host)
  {
    SplitCount(host, '.');
  }

  /** Four groups of one to three digits joined by dots match the IPv4
      pattern, and splitting gives the groups back. */
  lemma DottedQuad(groups: seq<string>)
    requires |groups| == 4
    requires forall k :: 0 <= k < 4 ==> 1 <= |groups[k]| <= 3 && AllDigits(groups[k])
    ensures Split(Join(groups, '.'), '.') == groups
    ensures Ipv4Shape(Join(groups, '.'))
  {
    forall k | 0 <= k < 4 ensures '.' !in groups[k] {
    }
    JoinSplit(groups, '.');
  }

  /** Conversely, every host the IPv4 pattern matches is four groups of one
      to three digits joined by dots. */
  lemma Ipv4ShapeIsDottedQuad(host: string)
    requires Ipv4Shape(host)
    ensures exists g: seq<string> ::
      && |g| == 4
      && (forall k :: 0 <= k < 4 ==> 1 <= |g[k]| <= 3 && AllDigits(g[k]))
      && host == Join(g, '.')
  {
    var g := Split(host, '.');
    SplitJoin(host, '.');
    assert |g| == 4 && (forall k :: 0 <= k < 4 ==> 1 <= |g[k]| <= 3 && AllDigits(g[k])) && host == Join(g, '.');
  }

  /** A group written with more than one digit and a leading zero, which the
      std parser rejects. */
  predicate ZeroPadded(group: string) {
    |group| > 1 && group[0] == '0'
  }

  /** One octet as `Ipv4Addr::from_str` reads it: one to three digits, no zero
      padding, a value that fits in a u8. */
  function OctetParses(group: string): (ok: bool)
    ensures ok ==> AllDigits(group) && Decimal(DecimalValue(group)) == group
  {
    1 <= |group| <= 3 && AllDigits(group) && !ZeroPadded(group) &&
    (UnpaddedIsDecimal(group); DecimalValue(group) <= 255)
  }

  /** A numeral without zero padding is the one `Display` prints for its
      value, so an accepted octet reads and prints the same. */
  lemma {:induction false} UnpaddedIsDecimal(s: string)
    requires |s| >= 1 && AllDigits(s) && !ZeroPadded(s)
    ensures Decimal(DecimalValue(s)) == s
    decreases |s|
  {
    var init, c := s[..|s| - 1], s[|s| - 1];
    assert DigitChar(DigitValue(c)) == c;
    if |s| == 1 {
      assert init == [];
      assert s == [c];
    } else {
      assert init[0] == s[0];
      UnpaddedIsDecimal(init);
      PrefixValueBelow(init, 1);
      assert init[..1][..0] == [];
      assert DecimalValue(init) >= 1;
      var v := DecimalValue(s);
      assert v / 10 == DecimalValue(init) && v % 10 == DigitValue(c);
      assert s == init + [c];
    }
  }

  /** Some group of a dotted quad is above 255 or zero-padded. */
  predicate HasBadOctet(host: string)
    requires Ipv4Shape(host)
  {
    var g := Split(host, '.');
    exists k :: 0 <= k < 4 && (DecimalValue(g[k]) > 255 || ZeroPadded(g[k]))
  }

  /** `Ipv4Addr::from_str`: exactly four octets separated by dots. On a
      host of the IPv4 pattern it fails exactly when some group is above
      255 or zero-padded. */
  function Ipv4Parses(host: string): (ok: bool)
    ensures ok ==> Ipv4Shape(host) && !HasBadOctet(host)
    ensures Ipv4Shape(host) && !HasBadOctet(host) ==> ok
  {
    var g := Split(host, '.');
    |g| == 4 && forall k :: 0 <= k < 4 ==> OctetParses(g[k])
  }

  /** `u16::from_str`: digits accumulated left to right with checked
      arithmetic; the parse fails as soon as the running value leaves the u16
      range, on an empty string and on a non-digit. */
  function ParseU16(s: string): (n: Option<nat>)
    ensures n.Some? ==> n.value <= 65535
  {
    if s == [] then None else ParseU16From(s, 0, 0)
  }

  /** The digits from `k` on, read onto the running value `acc`: the value
      only grows, and never leaves the u16 range once inside it. */
  function ParseU16From(s: string, k: nat, acc: nat): (n: Option<nat>)
    requires k <= |s|
    ensures n.Some? ==> acc <= n.value
    ensures n.Some? && acc <= 65535 ==> n.value <= 65535
    decreases |s| - k
  {
    if k == |s| then Some(acc)
    else if !IsDigit(s[k]) then None
    else if acc * 10 + DigitValue(s[k]) > 65535 then None
    else ParseU16From(s, k + 1, acc * 10 + DigitValue(s[k]))
  }

  lemma {:induction false} PrefixValueBelow(s: string, k: nat)
    requires AllDigits(s) && k <= |s|
    ensures DecimalValue(s[..k]) <= DecimalValue(s)
    decreases |s| - k
  {
    if k < |s| {
      assert s[..k + 1][..k] == s[..k];
      PrefixValueBelow(s, k + 1);
    } else {
      assert s[..k] == s;
    }
  }

  lemma {:induction false} ParseU16FromValue(s: string, k: nat, acc: nat)
    requires AllDigits(s) && k <= |s|
    requires acc == DecimalValue(s[..k]) && acc <= 65535
    ensures ParseU16From(s, k, acc) ==
      if DecimalValue(s) <= 65535 then Some(DecimalValue(s)) else None
    decreases |s| - k
  {
    if k == |s| {
      assert s[..k] == s;
    } else {
      assert s[..k + 1][..k] == s[..k];
      var next := acc * 10 + DigitValue(s[k]);
      assert next == DecimalValue(s[..k + 1]);
      if next > 65535 {
        PrefixValueBelow(s, k + 1);
      } else {
        ParseU16FromValue(s, k + 1, next);
      }
    }
  }

  /** The port check reads the digits' decimal value: leading zeros are
      harmless and only a value above 65535 fails. */
  lemma ParseU16Value(s: string)
    requires |s| >= 1 && AllDigits(s)
    ensures ParseU16(s) == if DecimalValue(s) <= 65535 then Some(DecimalValue(s)) else None
  {
    assert s[..0] == [];
    ParseU16FromValue(s, 0, 0);
  }

  // ---------------------------------------------------------------------
  // validate_ip_and_port
  // ---------------------------------------------------------------------

  /** The port check that follows the host checks: a captured port fails
      exactly when its value is above 65535. */
  function CheckPort(port: Option<string>): (v: Verdict)
    requires port.Some? ==> |port.value| >= 1 && AllDigits(port.value)
    ensures v == Valid || v == Invalid(InvalidPort)
    ensures v == Invalid(InvalidPort) <==> port.Some? && DecimalValue(port.value) > 65535
  {
    match port
    case None => Valid
    case Some(digits) =>
      ParseU16Value(digits);
      if ParseU16(digits).None? then Invalid(InvalidPort) else Valid
  }

  /** `validate_ip_and_port`, with `Ipv6Addr::from_str` given as `ipv6Parses`. */
  function Validate(url: string, ipv6Parses: string -> bool): (v: Verdict)
    ensures FindCaptures(url).None? ==> v == Valid
    ensures v == Invalid(InvalidIpv6) <==>
      FindCaptures(url).Some? && Ipv6Shape(FindCaptures(url).value.host)
      && !ipv6Parses(Interior(FindCaptures(url).value.host))
    ensures v == Invalid(InvalidIpv4) <==>
      FindCaptures(url).Some? && Ipv4Shape(FindCaptures(url).value.host)
      && !Ipv4Parses(FindCaptures(url).value.host)
    ensures v == Invalid(InvalidPort) <==>
      && FindCaptures(url).Some?
      && var c := FindCaptures(url).value;
      && !(Ipv6Shape(c.host) && !ipv6Parses(Interior(c.host)))
      && !(Ipv4Shape(c.host) && !Ipv4Parses(c.host))
      && c.port.Some? && DecimalValue(c.port.value) > 65535
  {
    match FindCaptures(url)
    case None => Valid
    case Some(c) =>
      if Ipv6Shape(c.host) then
        assert !Ipv4Shape(c.host) by {
          if Ipv4Shape(c.host) {
            Ipv4ShapeStartsWithDigit(c.host);
          }
        }
        if !ipv6Parses(Interior(c.host)) then Invalid(InvalidIpv6) else CheckPort(c.port)
      else if Ipv4Shape(c.host) then
        if !Ipv4Parses(c.host) then Invalid(InvalidIpv4) else CheckPort(c.port)
      else
        CheckPort(c.port)
  }

  /** On a dotted quad the IPv4 error is raised exactly when some group is
      above 255 or zero-padded; otherwise the IPv4 check passes and only the
      port can still fail. An invalid address wins over an invalid port. */
  lemma Ipv4Verdict(url: string, ipv6Parses: string -> bool)
    requires FindCaptures(url).Some? && Ipv4Shape(FindCaptures(url).value.host)
    ensures var c := FindCaptures(url).value;
      Validate(url, ipv6Parses) ==
        if HasBadOctet(c.host) then Invalid(InvalidIpv4) else CheckPort(c.port)
  {
    var c := FindCaptures(url).value;
    assert FindCaptures(url) == Some(c);
    Ipv4ShapeStartsWithDigit(c.host);
    assert !Ipv6Shape(c.host);
    var g := Split(c.host, '.');
    if HasBadOctet(c.host) {
      var k :| 0 <= k < 4 && (DecimalValue(g[k]) > 255 || ZeroPadded(g[k]));
      assert !OctetParses(g[k]);
      assert Validate(url, ipv6Parses) == Invalid(InvalidIpv4);
    } else {
      assert Ipv4Parses(c.host);
      assert Validate(url, ipv6Parses) == CheckPort(c.port);
    }
  }

  /** A host the IPv6 pattern matches gets the IPv6 error exactly when the
      address parser rejects the text between the brackets; an invalid
      address wins over an invalid port. */
  lemma Ipv6Verdict(url: string, ipv6Parses: string -> bool)
    requires FindCaptures(url).Some? && Ipv6Shape(FindCaptures(url).value.host)
    ensures var c := FindCaptures(url).value;
      Validate(url, ipv6Parses) ==
        if !ipv6Parses(Interior(c.host)) then Invalid(InvalidIpv6) else CheckPort(c.port)
  {
    var c := FindCaptures(url).value;
    assert FindCaptures(url) == Some(c);
    if ipv6Parses(Interior(c.host)) {
      assert Validate(url, ipv6Parses) == CheckPort(c.port);
    } else {
      assert Validate(url, ipv6Parses) == Invalid(InvalidIpv6);
    }
  }

  /** Any other host (a name, `1.2.3`, `[zzz]`, `[fe80::1%eth0]`) passes
      unchecked, and only the port decides. */
  lemma UncheckedHostVerdict(url: string, ipv6Parses: string -> bool)
    requires FindCaptures(url).Some?
    requires !Ipv6Shape(FindCaptures(url).value.host) && !Ipv4Shape(FindCaptures(url).value.host)
    ensures Validate(url, ipv6Parses) == CheckPort(FindCaptures(url).value.port)
  {
  }
}

/** Worked inputs for the validator, each derived from the general lemmas. */
module ValidatorExamples {
  import opened Text
  import opened Validators

  lemma QuadCaptured(url: string)
    requires url == "http://999.999.999.999"
    ensures FindCaptures(url) == Some(Captures("999.999.999.999", None))
  {
    var host := "999.999.999.999";
    assert url == "http://" + host + "";
    PlainHostUrl("http://", host, "");
  }

  lemma QuadShape(host: string)
    requires host == "999.999.999.999"
    ensures Ipv4Shape(host) && DecimalValue(Split(host, '.')[0]) == 999
  {
    var g := ["999", "999", "999", "999"];
    DottedQuad(g);
    QuadJoin(g, host);
    NineNineNine(g[0]);
  }

  lemma QuadJoin(g: seq<string>, host: string)
    requires g == ["999", "999", "999", "999"] && host == "999.999.999.999"
    ensures Join(g, '.') == host
  {
    assert Join(g[3..], '.') == "999";
    assert Join(g[2..], '.') == "999" + ['.'] + "999" by {
      assert g[2..][1..] == g[3..];
    }
    assert Join(g[1..], '.') == "999" + ['.'] + ("999" + ['.'] + "999") by {
      assert g[1..][1..] == g[2..];
    }
  }

  lemma NineNineNine(s: string)
    requires s == "999"
    ensures AllDigits(s) && DecimalValue(s) == 999
  {
    assert "9"[..0] == "" && DecimalValue("9") == 9;
    assert "99"[..1] == "9" && DecimalValue("99") == 99;
    assert s[..2] == "99";
  }

  /** `http://999.999.999.999` fails as an invalid IPv4 address. */
  lemma OutOfRangeQuad(url: string, ipv6Parses: string -> bool)
    requires url == "http://999.999.999.999"
    ensures Validate(url, ipv6Parses) == Invalid(InvalidIpv4)
  {
    QuadCaptured(url);
    QuadShape("999.999.999.999");
    Ipv4Verdict(url, ipv6Parses);
  }

  /** The largest u16 passes. */
  lemma MaxPortPasses(url: string, ipv6Parses: string -> bool)
    requires url == "http://example.com:65535"
    ensures Validate(url, ipv6Parses) == Valid
  {
    assert DecimalValue("65535") == 65535 by {
      assert "65535"[..4] == "6553" && "6553"[..3] == "655" && "655"[..2] == "65";
      assert "65"[..1] == "6" && "6"[..0] == "";
    }
    NamedHostWithPort(url, "65535", ipv6Parses);
  }

  /** One more than the largest u16 fails as an invalid port. */
  lemma PortOverflowFails(url: string, ipv6Parses: string -> bool)
    requires url == "http://example.com:65536"
    ensures Validate(url, ipv6Parses) == Invalid(InvalidPort)
  {
    assert DecimalValue("65536") == 65536 by {
      assert "65536"[..4] == "6553" && "6553"[..3] == "655" && "655"[..2] == "65";
      assert "65"[..1] == "6" && "6"[..0] == "";
    }
    NamedHostWithPort(url, "65536", ipv6Parses);
  }

  /** Zero padding in a port is harmless. */
  lemma PaddedPortPasses(url: string, ipv6Parses: string -> bool)
    requires url == "http://example.com:0080"
    ensures Validate(url, ipv6Parses) == Valid
  {
    PaddedValue("0080");
    NamedHostWithPort(url, "0080", ipv6Parses);
  }

  lemma PaddedValue(s: string)
    requires s == "0080"
    ensures AllDigits(s) && DecimalValue(s) == 80
  {
    assert "0"[..0] == "" && DecimalValue("0") == 0;
    assert "00"[..1] == "0" && DecimalValue("00") == 0;
    assert "008"[..2] == "00" && DecimalValue("008") == 8;
    assert s[..3] == "008";
  }
  lemma NamedHostCaptured(url: string, digits: string)
    requires |digits| >= 1 && AllDigits(digits)
    requires url == "http://example.com:" + digits
    ensures FindCaptures(url) == Some(Captures("example.com", Some(digits)))
  {
    var host := "example.com";
    assert url == "http://" + host + (":" + digits);
    PlainHostUrl("http://", host, ":" + digits);
    assert url[19..] == digits;
    PortToEnd(url, 18);
  }

  /** `example.com` with port digits running to the end of the URL: only the
      port's value decides. */
  lemma NamedHostWithPort(url: string, digits: string, ipv6Parses: string -> bool)
    requires |digits| >= 1 && AllDigits(digits)
    requires url == "http://example.com:" + digits
    ensures Validate(url, ipv6Parses) == if DecimalValue(digits) <= 65535 then Valid else Invalid(InvalidPort)
  {
    NamedHostCaptured(url, digits);
    NonDigitStartNotIpv4("example.com");
    UncheckedHostVerdict(url, ipv6Parses);
  }


  /** An address followed by an out-of-range port still reports the address. */
  lemma HostErrorWins(url: string, ipv6Parses: string -> bool)
    requires url == "http://999.999.999.999:99999"
    ensures Validate(url, ipv6Parses) == Invalid(InvalidIpv4)
  {
    var host := "999.999.999.999";
    assert url == "http://" + host + ":99999";
    PlainHostUrl("http://", host, ":99999");
    QuadShape(host);
    Ipv4Verdict(url, ipv6Parses);
  }

  /** Three groups are not an IPv4 address: `1.2.3` passes as a name. */
  lemma ThreeGroupsPass(url: string, ipv6Parses: string -> bool)
    requires url == "http://1.2.3"
    ensures Validate(url, ipv6Parses) == Valid
  {
    var host := "1.2.3";
    assert url == "http://" + host + "";
    PlainHostUrl("http://", host, "");
    assert PortAt(url, 12) == None;
    assert Count(host, '.') == 2;
    NotThreeDotsNotIpv4(host);
    UncheckedHostVerdict(url, ipv6Parses);
  }

  lemma FiveGroupsCaptured(url: string)
    requires url == "http://1.2.3.4.5"
    ensures FindCaptures(url) == Some(Captures("1.2.3.4.5", None))
  {
    var host := "1.2.3.4.5";
    assert url == "http://" + host + "";
    PlainHostUrl("http://", host, "");
  }

  lemma FiveGroupsNotIpv4(host: string)
    requires host == "1.2.3.4.5"
    ensures !Ipv4Shape(host)
  {
    var g := ["1", "2", "3", "4", "5"];
    assert Join(g, '.') == host;
    JoinSplit(g, '.');
  }

  /** Five groups are not an IPv4 address either. */
  lemma FiveGroupsPass(url: string, ipv6Parses: string -> bool)
    requires url == "http://1.2.3.4.5"
    ensures Validate(url, ipv6Parses) == Valid
  {
    FiveGroupsCaptured(url);
    FiveGroupsNotIpv4("1.2.3.4.5");
    UncheckedHostVerdict(url, ipv6Parses);
  }

  lemma BracketCaptured(url: string, inner: string)
    requires url == "http://[" + inner + "]"
    requires ']' !in inner && '\n' !in inner
    ensures FindCaptures(url) == Some(Captures("[" + inner + "]", None))
  {
    var host := "[" + inner + "]";
    assert url == "http://" + host + "";
    BracketHostUrl("http://", inner, "");
  }

  /** A bracketed host with a letter outside `a-f` skips the IPv6 check
      altogether, whatever the address parser would say. */
  lemma ZoneIdSkipsIpv6Check(url: string, ipv6Parses: string -> bool)
    requires url == "http://[fe80::1%eth0]"
    ensures Validate(url, ipv6Parses) == Valid
  {
    var inner := "fe80::1%eth0";
    var host := "[" + inner + "]";
    ZoneIdNeitherShape(host, inner);
    assert url == "http://[" + inner + "]";
    BracketCaptured(url, inner);
    UncheckedHostVerdict(url, ipv6Parses);
  }

  /** `[fe80::1%eth0]` can be captured whole and matches neither address
      pattern: `t` and `h` are not hex digits, and `[` is not a digit. */
  lemma ZoneIdNeitherShape(host: string, inner: string)
    requires inner == "fe80::1%eth0" && host == "[" + inner + "]"
    ensures ']' !in inner && '\n' !in inner
    ensures !Ipv6Shape(host) && !Ipv4Shape(host)
  {
    assert host[10] == 't' && !Ipv6Char(host[10]);
    NonDigitStartNotIpv4(host);
  }

  /** `[zzz]` is neither shape and passes. */
  lemma NonHexBracketPasses(url: string, ipv6Parses: string -> bool)
    requires url == "http://[zzz]"
    ensures Validate(url, ipv6Parses) == Valid
  {
    var inner := "zzz";
    var host := "[" + inner + "]";
    NonHexNeitherShape(host, inner);
    assert url == "http://[" + inner + "]";
    BracketCaptured(url, inner);
    UncheckedHostVerdict(url, ipv6Parses);
  }

  lemma NonHexNeitherShape(host: string, inner: string)
    requires inner == "zzz" && host == "[" + inner + "]"
    ensures ']' !in inner && '\n' !in inner
    ensures !Ipv6Shape(host) && !Ipv4Shape(host)
  {
    assert !Ipv6Char(host[1]);
    NonDigitStartNotIpv4(host);
  }
  /** A `:` followed by a non-digit captures no port, so nothing fails. */
  lemma NonDigitPortIgnored(url: string, ipv6Parses: string -> bool)
    requires url == "http://example.com:abc"
    ensures Validate(url, ipv6Parses) == Valid
  {
    var host := "example.com";
    assert url == "http://" + host + ":abc";
    PlainHostUrl("http://", host, ":abc");
    assert url[18] == ':' && !IsDigit(url[19]);
    assert PortAt(url, 18) == None;
    NonDigitStartNotIpv4(host);
    UncheckedHostVerdict(url, ipv6Parses);
  }
}
