/**
 * `parse_address` (src/logging_proxy/utils.py): split a command-line
 * address such as `127.0.0.1:80`, `[::1]:80` or `10.0.0.1,10.0.0.2:80` into
 * its host (or sorted list of hosts) and its port, falling back to a default
 * host and port.  The anchored regular expression is modelled by the shape
 * of the match it finds; `urlsplit(...).hostname` by the part of urllib's
 * host extraction that the allowed characters can reach.
 */
module Address {
  import opened Optional
  import Strings

  /** The `ArgumentTypeError`s `parse_address` raises, and the `TypeError` of `sorted()` on a mix of `None` and text. */
  datatype Failure =
    | InvalidAddress   // "Invalid address parsed. Only host and port are supported."
    | InvalidPort      // "Invalid address parsed. Invalid port."
    | PortRequired     // "Port required."
    | InvalidHost      // "Invalid address parsed. Invalid host."
    | OneHostRequired  // "Invalid address parsed. Only one host is required."
    | HostRequired     // "Invalid address parsed. Host required."
    | Unorderable      // sorted() comparing None with a str

  /** One host as a string, or several as a sorted list. */
  datatype Hosts = Single(host: string) | Several(hosts: seq<string>)

  datatype Parsed = Parsed(hosts: Hosts, port: int)

  datatype Outcome = Ok(value: Parsed) | Fail(failure: Failure)

  /** Ports from the address must lie strictly between 0 and this. */
  const PORT_LIMIT: int := 65536

  // ---------------------------------------------------------------------------
  // The regular expression ^(?P<hosts>[...]*?)(:(?P<port>\d+))?$
  // ---------------------------------------------------------------------------

  /** The character class: `[0-9.:\[\],]` with `multiple`, `[0-9a-zA-Z.:\[\],]` without. */
  predicate Allowed(c: char, multiple: bool) {
    Strings.IsAsciiDigit(c) || c == '.' || c == ':' || c == '[' || c == ']' || c == ','
    || (!multiple && Strings.IsAsciiLetter(c))
  }

  predicate AllAllowed(s: string, multiple: bool) {
    forall i :: 0 <= i < |s| ==> Allowed(s[i], multiple)
  }

  predicate AllDigits(s: string) {
    forall i :: 0 <= i < |s| ==> Strings.IsAsciiDigit(s[i])
  }

  /** `:(?P<port>\d+)` matches all of `rest`. */
  predicate PortGroup(rest: string) {
    |rest| >= 2 && rest[0] == ':' && AllDigits(rest[1..])
  }

  /** The text the pattern has to cover: `$` also matches just before a final newline. */
  function Subject(address: string): (b: string)
    ensures b == address || (b + "\n" == address)
  {
    if address != [] && address[|address| - 1] == '\n' then address[..|address| - 1] else address
  }

  /** The pattern matches `b` with the hosts group ending at `k`. */
  predicate MatchesAt(b: string, k: nat, multiple: bool) {
    k <= |b| && AllAllowed(b[..k], multiple) && (k == |b| || PortGroup(b[k..]))
  }

  /** The groups of a successful match: the hosts text and the port digits when the port group took part. */
  datatype Match = Match(hosts: string, port: Option<string>)

  /** A port group captured at least one digit and nothing else. */
  predicate PortDigits(m: Match) {
    m.port.Some? ==> m.port.value != [] && AllDigits(m.port.value)
  }

  /** The match on the text the pattern covers. */
  function MatchText(b: string, multiple: bool): (r: Option<Match>)
    ensures r.Some? ==> PortDigits(r.value)
  {
    if !AllAllowed(b, multiple) then None
    else
      match Strings.LastIndexOf(b, ':')
      case Some(j) =>
        if j + 1 < |b| && AllDigits(b[j + 1..]) then Some(Match(b[..j], Some(b[j + 1..])))
        else Some(Match(b, None))
      case None => Some(Match(b, None))
  }

  /** `re.match(...)` and its `groupdict()`; `None` when the address does not match. */
  function MatchAddress(address: string, multiple: bool): (r: Option<Match>)
    ensures r.Some? ==> PortDigits(r.value)
  {
    MatchText(Subject(address), multiple)
  }

  /** With a character outside the class, no split point matches. */
  lemma {:induction false} NoSplitPoint(b: string, multiple: bool)
    requires !AllAllowed(b, multiple)
    ensures forall k :: 0 <= k <= |b| ==> !MatchesAt(b, k, multiple)
  {
    forall k | 0 <= k <= |b| ensures !MatchesAt(b, k, multiple) {
      var i :| 0 <= i < |b| && !Allowed(b[i], multiple);
      if i < k {
        assert b[..k][i] == b[i];
      } else if i == k {
        assert b[k..][0] == b[i];
      } else {
        assert b[k..][1..][i - k - 1] == b[i];
      }
    }
  }

  /** Before the split point the match uses, the rest is never a `:digits` port group. */
  lemma {:induction false} ShorterSplitsFail(b: string, multiple: bool, k: nat)
    requires MatchText(b, multiple).Some? && k == |MatchText(b, multiple).value.hosts|
    ensures forall k' :: 0 <= k' < k ==> !PortGroup(b[k'..])
  {
    forall k' | 0 <= k' < k ensures !PortGroup(b[k'..]) {
      PortGroupAtLastColon(b, k');
    }
  }

  /** A `:digits` port group can only start at the last `:` of the text. */
  lemma {:induction false} PortGroupAtLastColon(b: string, k: nat)
    requires k <= |b|
    ensures PortGroup(b[k..]) ==> Strings.LastIndexOf(b, ':') == Some(k) && b[k + 1..] == b[k..][1..]
  {
    if PortGroup(b[k..]) {
      var rest := b[k..];
      assert b[k] == rest[0] == ':';
      forall m | k < m < |b| ensures b[m] != ':' {
        assert b[m] == rest[1..][m - k - 1];
      }
      forall m | 1 <= m <= k ensures ':' in b[m..] {
        assert b[m..][k - m] == ':';
      }
      assert b[k + 1..] == rest[1..];
    }
  }

  /** The match found covers the whole text: allowed hosts, then nothing or the port group. */
  lemma {:induction false} MatchCovers(b: string, multiple: bool)
    requires MatchText(b, multiple).Some?
    ensures var m := MatchText(b, multiple).value;
            var k := |m.hosts|;
            k <= |b| && m.hosts == b[..k] && MatchesAt(b, k, multiple)
            && m.port == if k == |b| then None else Some(b[k + 1..])
  {
    var m := MatchText(b, multiple).value;
    var k := |m.hosts|;
    if k < |b| {
      assert b[k..] == [':'] + b[k + 1..];
    }
  }

  /**
   * The match is the one the regular expression engine finds: the address
   * matches exactly when some split point does, and the hosts group is the
   * shortest one for which the rest is empty or a `:digits` port group.
   */
  lemma {:induction false} MatchIsShortest(address: string, multiple: bool)
    ensures var b, r := Subject(address), MatchAddress(address, multiple);
            (r.None? ==> forall k :: 0 <= k <= |b| ==> !MatchesAt(b, k, multiple))
            && (r.Some? ==>
                  var k := |r.value.hosts|;
                  k <= |b| && r.value.hosts == b[..k] && MatchesAt(b, k, multiple)
                  && (forall k' :: 0 <= k' < k ==> !MatchesAt(b, k', multiple))
                  && r.value.port == if k == |b| then None else Some(b[k + 1..]))
  {
    var b := Subject(address);
    if !AllAllowed(b, multiple) {
      NoSplitPoint(b, multiple);
    } else {
      MatchCovers(b, multiple);
      ShorterSplitsFail(b, multiple, |MatchText(b, multiple).value.hosts|);
    }
  }

  // ---------------------------------------------------------------------------
  // urlsplit(f"http://{h}").hostname
  // ---------------------------------------------------------------------------

  /** What `.hostname` gives for a piece: `ValueError("Invalid IPv6 URL")`, or the host (`None` when empty). */
  datatype UrlHost = InvalidIPv6 | Hostname(name: Option<string>)

  /**
   * The host urllib extracts from the network location `h`: brackets must
   * balance; inside brackets the text up to `]`, otherwise the text up to the
   * first `:`; lower-cased, and `None` when empty.
   */
  function UrlHostname(h: string): UrlHost {
    if ('[' in h) != (']' in h) then InvalidIPv6
    else
      var name :=
        match Strings.IndexOf(h, '[')
        case Some(i) =>
          var bracketed := h[i + 1..];
          (match Strings.IndexOf(bracketed, ']')
           case Some(j) => bracketed[..j]
           case None => bracketed)
        case None =>
          (match Strings.IndexOf(h, ':')
           case Some(j) => h[..j]
           case None => h);
      if name == [] then Hostname(None) else Hostname(Some(Strings.AsciiLower(name)))
  }

  /** Unbalanced brackets are the only way `.hostname` raises. */
  lemma {:induction false} UnbalancedBracketsRaise(h: string)
    ensures UrlHostname(h) == InvalidIPv6 <==> ('[' in h) != (']' in h)
  {
  }

  /** A bracketed host comes back without its brackets, and with the port after them ignored. */
  lemma {:induction false} BracketsStripped(x: string, rest: string)
    requires x != [] && '[' !in x && ']' !in x && '[' !in rest && ']' !in rest
    ensures UrlHostname("[" + x + "]" + rest) == Hostname(Some(Strings.AsciiLower(x)))
  {
    var b := x + "]" + rest;
    var h := "[" + x + "]" + rest;
    assert h == "[" + b && h[1..] == b;
    assert h[..0] == [];
    Strings.IndexOfAt(h, '[', 0);
    assert b[|x|] == ']' && b[..|x|] == x;
    Strings.IndexOfAt(b, ']', |x|);
    assert h[|x| + 1] == ']';
  }

  /** A plain name without brackets or `:` is the host itself, lower-cased. */
  lemma {:induction false} PlainNameKept(x: string)
    requires x != [] && '[' !in x && ']' !in x && ':' !in x
    ensures UrlHostname(x) == Hostname(Some(Strings.AsciiLower(x)))
  {
  }

  // ---------------------------------------------------------------------------
  // The hosts set
  // ---------------------------------------------------------------------------

  /** What the loop adds for one comma-separated piece: `h or host` when it is empty, its hostname otherwise. */
  function Entry(piece: string, host: Option<string>): UrlHost {
    if piece == [] then Hostname(host) else UrlHostname(piece)
  }

  /** The entry of every piece, in order. */
  function Entries(pieces: seq<string>, host: Option<string>): (es: seq<UrlHost>)
    ensures |es| == |pieces| && forall i :: 0 <= i < |pieces| ==> es[i] == Entry(pieces[i], host)
  {
    seq(|pieces|, i requires 0 <= i < |pieces| => Entry(pieces[i], host))
  }

  /**
   * The `hosts` set after the loop has added `entries` one by one, as a list
   * without duplicates in the order of first insertion; `None` once an entry
   * has raised.
   */
  function Collect(entries: seq<UrlHost>): Option<seq<Option<string>>> {
    if entries == [] then Some([])
    else
      var prev := Collect(entries[..|entries| - 1]);
      match entries[|entries| - 1]
      case InvalidIPv6 => None
      case Hostname(name) =>
        if prev.None? then None
        else if name in prev.value then prev
        else Some(prev.value + [name])
  }

  /** The loop fails exactly when some piece raises. */
  lemma {:induction false} CollectFailsIffInvalid(entries: seq<UrlHost>)
    ensures Collect(entries).None? <==> InvalidIPv6 in entries
  {
    if entries != [] {
      var prefix := entries[..|entries| - 1];
      CollectFailsIffInvalid(prefix);
      assert entries == prefix + [entries[|entries| - 1]];
    }
  }

  /** Otherwise the loop builds a set: each entry's host once, and nothing else. */
  lemma {:induction false} CollectIsSet(entries: seq<UrlHost>)
    requires Collect(entries).Some?
    ensures Strings.Distinct(Collect(entries).value)
    ensures forall e :: e in Collect(entries).value <==> Hostname(e) in entries
  {
    if entries != [] {
      var prefix := entries[..|entries| - 1];
      CollectIsSet(prefix);
      assert entries == prefix + [entries[|entries| - 1]];
    }
  }

  /** One more turn of the loop: raise, or add the entry's host unless it is already there. */
  lemma {:induction false} CollectStep(entries: seq<UrlHost>, i: nat)
    requires i < |entries|
    ensures var prev, next := Collect(entries[..i]), Collect(entries[..i + 1]);
            next == match entries[i]
                    case InvalidIPv6 => None
                    case Hostname(name) =>
                      if prev.None? then None
                      else if name in prev.value then prev
                      else Some(prev.value + [name])
  {
    assert entries[..i + 1][..i] == entries[..i];
  }

  /** Once a piece has raised, the loop never recovers: later pieces keep the failure. */
  lemma {:induction false} FailureSticks(entries: seq<UrlHost>, n: nat)
    requires n <= |entries| && Collect(entries[..n]).None?
    ensures Collect(entries).None?
    decreases |entries| - n
  {
    if n < |entries| {
      assert entries[..n + 1][..n] == entries[..n];
      FailureSticks(entries, n + 1);
    } else {
      assert entries[..n] == entries;
    }
  }

  /** The text of each host, for a set without `None`. */
  function Names(hosts: seq<Option<string>>): (r: seq<string>)
    requires None !in hosts
    ensures |r| == |hosts| && forall i :: 0 <= i < |hosts| ==> Some(r[i]) == hosts[i]
  {
    if hosts == [] then [] else [hosts[0].value] + Names(hosts[1..])
  }

  /** What the code after the loop makes of the hosts set. */
  function Choose(hosts: seq<Option<string>>, host: Option<string>, port: int, multiple: bool): (r: Outcome)
    ensures r.Ok? ==> r.value.port == port
    ensures r.Fail? ==> r.failure in {Unorderable, OneHostRequired, HostRequired}
  {
    if |hosts| > 1 && multiple then
      if None in hosts then Fail(Unorderable) else Ok(Parsed(Several(Strings.Sort(Names(hosts))), port))
    else if |hosts| > 1 then Fail(OneHostRequired)
    else if |hosts| == 1 then
      // `hosts.pop() or host`
      var chosen := if hosts[0].None? || hosts[0].value == "" then host else hosts[0];
      if chosen.Some? then Ok(Parsed(Single(chosen.value), port)) else Fail(HostRequired)
    else Fail(HostRequired)
  }

  // ---------------------------------------------------------------------------
  // parse_address
  // ---------------------------------------------------------------------------

  /** The hosts part once the port is settled: build the set from the comma-separated pieces, then choose. */
  function ParseHosts(text: string, host: Option<string>, port: int, multiple: bool): Outcome {
    match Collect(Entries(Strings.Split(text, ','), host))
    case None => Fail(InvalidHost)
    case Some(hosts) => Choose(hosts, host, port, multiple)
  }

  /** The port in the address, if any, as a number; otherwise the default. */
  function PortOf(m: Match, port: Option<int>): Option<int>
    requires PortDigits(m)
  {
    if m.port.Some? then Some(Strings.DecimalValue(m.port.value) as int) else port
  }

  /** Everything after a successful match: check and settle the port, then the hosts. */
  function ParseMatch(m: Match, host: Option<string>, port: Option<int>, multiple: bool): Outcome
    requires PortDigits(m)
  {
    var p := PortOf(m, port);
    if m.port.Some? && !(0 < p.value < PORT_LIMIT) then Fail(InvalidPort)
    else if p.None? then Fail(PortRequired)
    else ParseHosts(m.hosts, host, p.value, multiple)
  }

  /** `parse_address(address, host, port, multiple)`, with `None` defaults as `None`. */
  function ParseAddressSpec(address: string, host: Option<string>, port: Option<int>, multiple: bool): Outcome {
    match MatchAddress(address, multiple)
    case None => Fail(InvalidAddress)
    case Some(m) => ParseMatch(m, host, port, multiple)
  }

  /**
   * `parse_address`: match the address, settle the port, build the hosts
   * set piece by piece (raising on the first invalid piece), then return one
   * host, the sorted hosts, or an error.
   */
  method ParseAddress(address: string, host: Option<string>, port: Option<int>, multiple: bool) returns (r: Outcome)
    ensures r == ParseAddressSpec(address, host, port, multiple)
  {
    var m := MatchAddress(address, multiple);
    if m.None? {
      return Fail(InvalidAddress);
    }
    var p := port;
    if m.value.port.Some? {
      var n := Strings.DecimalValue(m.value.port.value);
      if n <= 0 || n >= PORT_LIMIT {
        return Fail(InvalidPort);
      }
      p := Some(n);
    }
    if p.None? {
      return Fail(PortRequired);
    }
    assert p == PortOf(m.value, port);
    var hosts := CollectPieces(Strings.Split(m.value.hosts, ','), host);
    if hosts.None? {
      return Fail(InvalidHost);
    }
    r := Choose(hosts.value, host, p.value, multiple);
  }

  /** The `for h in ...split(",")` loop: add each piece's host, raising on the first invalid one. */
  method CollectPieces(pieces: seq<string>, host: Option<string>) returns (r: Option<seq<Option<string>>>)
    ensures r == Collect(Entries(pieces, host))
  {
    ghost var entries := Entries(pieces, host);
    var hosts: seq<Option<string>> := [];
    for i := 0 to |pieces|
      invariant Collect(entries[..i]) == Some(hosts)
    {
      var h := pieces[i];
      var entry := Entry(h, host);
      CollectStep(entries, i);
      if entry.InvalidIPv6? {
        FailureSticks(entries, i + 1);
        return None;
      }
      if entry.name !in hosts {
        hosts := hosts + [entry.name];
      }
    }
    assert entries[..|pieces|] == entries;
    return Some(hosts);
  }

  // ---------------------------------------------------------------------------
  // What parse_address promises
  // ---------------------------------------------------------------------------

  /** An address is rejected as malformed exactly when a character outside the class occurs in it. */
  lemma {:induction false} MalformedIffDisallowedChar(address: string, host: Option<string>, port: Option<int>, multiple: bool)
    ensures ParseAddressSpec(address, host, port, multiple) == Fail(InvalidAddress)
            <==> exists i :: 0 <= i < |Subject(address)| && !Allowed(Subject(address)[i], multiple)
  {
  }

  /** The hosts part never decides the port: a result carries the port it was given. */
  lemma {:induction false} HostsKeepPort(text: string, host: Option<string>, port: int, multiple: bool)
    ensures var r := ParseHosts(text, host, port, multiple);
            (r.Ok? ==> r.value.port == port)
            && (r.Fail? ==> r.failure in {InvalidHost, Unorderable, OneHostRequired, HostRequired})
  {
  }

  /**
   * A port in the address overrides the default and must lie in 1..65535;
   * without one the default is used, and "Port required." is raised when
   * there is none.
   */
  lemma {:induction false} PortResolution(address: string, host: Option<string>, port: Option<int>, multiple: bool)
    requires MatchAddress(address, multiple).Some?
    ensures var r, m := ParseAddressSpec(address, host, port, multiple), MatchAddress(address, multiple).value;
            (m.port.Some? ==>
               var n := Strings.DecimalValue(m.port.value);
               (r == Fail(InvalidPort) <==> !(0 < n < PORT_LIMIT)) && (r.Ok? ==> r.value.port == n))
            && (m.port.None? ==>
                  (r == Fail(PortRequired) <==> port.None?) && (r.Ok? ==> Some(r.value.port) == port))
  {
    var m := MatchAddress(address, multiple).value;
    var p := PortOf(m, port);
    if p.Some? {
      HostsKeepPort(m.hosts, host, p.value, multiple);
    }
  }

  /** Without `multiple`, two distinct hosts are an error; a list of hosts is only ever returned with it. */
  lemma {:induction false} SeveralHostsNeedMultiple(text: string, host: Option<string>, port: int, multiple: bool)
    ensures var r, hs := ParseHosts(text, host, port, multiple), Collect(Entries(Strings.Split(text, ','), host));
            (r.Ok? && r.value.hosts.Several? ==> multiple)
            && (!multiple && hs.Some? && |hs.value| > 1 ==> r == Fail(OneHostRequired))
  {
  }

  /**
   * With `multiple`, a list result is `sorted(hosts)`: strictly increasing,
   * at least two entries, and exactly the hosts named in the address.
   */
  lemma {:induction false} SeveralHostsSortedAndDistinct(text: string, host: Option<string>, port: int, multiple: bool)
    requires ParseHosts(text, host, port, multiple).Ok?
    requires ParseHosts(text, host, port, multiple).value.hosts.Several?
    ensures var l, es := ParseHosts(text, host, port, multiple).value.hosts.hosts, Entries(Strings.Split(text, ','), host);
            Strings.StrictlySorted(l) && |l| >= 2
            && forall x :: x in l <==> Hostname(Some(x)) in es
  {
    var es := Entries(Strings.Split(text, ','), host);
    var hs := Collect(es).value;
    CollectIsSet(es);
    SortedNames(hs);
  }

  /** `sorted()` of a set of host names: strictly increasing and the same members. */
  lemma {:induction false} SortedNames(hs: seq<Option<string>>)
    requires None !in hs && Strings.Distinct(hs)
    ensures var l := Strings.Sort(Names(hs));
            Strings.StrictlySorted(l) && |l| == |hs| && forall x :: x in l <==> Some(x) in hs
  {
    var names := Names(hs);
    assert Strings.Distinct(names) by {
      forall i, j | 0 <= i < j < |names| ensures names[i] != names[j] {
        assert Some(names[i]) == hs[i] && Some(names[j]) == hs[j];
      }
    }
    Strings.SortSpec(names);
    var l := Strings.Sort(names);
    assert |l| == |multiset(l)| == |multiset(names)| == |names|;
    forall x ensures x in l <==> Some(x) in hs {
      assert x in l <==> x in multiset(l);
      assert x in names <==> x in multiset(names);
      if Some(x) in hs {
        var i :| 0 <= i < |hs| && hs[i] == Some(x);
        assert names[i] == x;
      }
    }
  }

  /**
   * An empty hosts part, as in `:80`, gives the default host, and "Host
   * required." is raised when there is none.
   */
  lemma {:induction false} EmptyHostFallsBack(host: Option<string>, port: int, multiple: bool)
    ensures var r := ParseHosts("", host, port, multiple);
            (host.Some? ==> r == Ok(Parsed(Single(host.value), port)))
            && (host.None? ==> r == Fail(HostRequired))
  {
    Strings.SplitWithoutSeparator("", ',');
    var es := Entries([""], host);
    assert es == [Hostname(host)];
    CollectOne(host);
  }

  /** `$` lets one final newline through: it changes nothing. */
  lemma {:induction false} FinalNewlineIgnored(address: string, host: Option<string>, port: Option<int>, multiple: bool)
    requires address == [] || address[|address| - 1] != '\n'
    ensures ParseAddressSpec(address + "\n", host, port, multiple) == ParseAddressSpec(address, host, port, multiple)
  {
    assert Subject(address + "\n") == address by {
      assert (address + "\n")[..|address|] == address;
    }
  }

  /** A trailing `:digits` is always taken as the port, whatever `:` the hosts part holds. */
  lemma {:induction false} TrailingPortTaken(h: string, d: string, multiple: bool)
    requires AllAllowed(h, multiple) && d != [] && AllDigits(d)
    ensures MatchAddress(h + ":" + d, multiple) == Some(Match(h, Some(d)))
  {
    var a := h + ":" + d;
    assert a[|a| - 1] == d[|d| - 1];
    assert Subject(a) == a;
    assert a[|h|..][1..] == d;
    PortGroupAtLastColon(a, |h|);
    assert a[..|h|] == h;
    forall i | 0 <= i < |a| ensures Allowed(a[i], multiple) {
      if i < |h| {
        assert a[i] == h[i];
      } else if i > |h| {
        assert a[i] == d[i - |h| - 1];
      }
    }
  }

  /** A hosts part naming one non-empty host gives that host and the port. */
  lemma {:induction false} OneHostText(text: string, y: string, host: Option<string>, port: int, multiple: bool)
    requires ',' !in text && text != [] && UrlHostname(text) == Hostname(Some(y)) && y != []
    ensures ParseHosts(text, host, port, multiple) == Ok(Parsed(Single(y), port))
  {
    SingleEntry(text, y, host);
    assert Choose([Some(y)], host, port, multiple) == Ok(Parsed(Single(y), port));
  }

  /** A hosts part without commas is one piece, and the set holds its host alone. */
  lemma {:induction false} SingleEntry(text: string, y: string, host: Option<string>)
    requires ',' !in text && text != [] && UrlHostname(text) == Hostname(Some(y))
    ensures Collect(Entries(Strings.Split(text, ','), host)) == Some([Some(y)])
  {
    Strings.SplitWithoutSeparator(text, ',');
    var es := Entries([text], host);
    assert es == [Hostname(Some(y))];
    CollectOne(Some(y));
  }

  /** A single entry gives a one-element set. */
  lemma {:induction false} CollectOne(e: Option<string>)
    ensures Collect([Hostname(e)]) == Some([e])
  {
    var es := [Hostname(e)];
    assert es[..0] == [];
    var prev := Collect(es[..0]);
    assert prev == Some([]);
    assert e !in prev.value;
    assert Collect(es) == Some(prev.value + [e]);
    assert prev.value + [e] == [e];
  }

  /** One non-empty host with a port in range gives that host and that port. */
  lemma {:induction false} OneHostWithPort(h: string, y: string, d: string, host: Option<string>, port: Option<int>, multiple: bool)
    requires AllAllowed(h, multiple) && ',' !in h && h != [] && UrlHostname(h) == Hostname(Some(y)) && y != []
    requires d != [] && AllDigits(d) && 0 < Strings.DecimalValue(d) < PORT_LIMIT
    ensures ParseAddressSpec(h + ":" + d, host, port, multiple) == Ok(Parsed(Single(y), Strings.DecimalValue(d)))
  {
    TrailingPortTaken(h, d, multiple);
    OneHostText(h, y, host, Strings.DecimalValue(d), multiple);
  }

  /** `example.org:80` or `127.0.0.1:80`: the name, lower-cased, and the port. */
  lemma {:induction false} NameWithPort(x: string, d: string, host: Option<string>, port: Option<int>, multiple: bool)
    requires x != [] && AllAllowed(x, multiple) && ':' !in x && '[' !in x && ']' !in x && ',' !in x
    requires d != [] && AllDigits(d) && 0 < Strings.DecimalValue(d) < PORT_LIMIT
    ensures ParseAddressSpec(x + ":" + d, host, port, multiple)
            == Ok(Parsed(Single(Strings.AsciiLower(x)), Strings.DecimalValue(d)))
  {
    PlainNameKept(x);
    OneHostWithPort(x, Strings.AsciiLower(x), d, host, port, multiple);
  }

  /** `[::]:80`: the bracketed address without its brackets, and the port. */
  lemma {:induction false} BracketedWithPort(x: string, d: string, host: Option<string>, port: Option<int>, multiple: bool)
    requires x != [] && AllAllowed(x, multiple) && '[' !in x && ']' !in x && ',' !in x
    requires d != [] && AllDigits(d) && 0 < Strings.DecimalValue(d) < PORT_LIMIT
    ensures ParseAddressSpec("[" + x + "]:" + d, host, port, multiple)
            == Ok(Parsed(Single(Strings.AsciiLower(x)), Strings.DecimalValue(d)))
  {
    var h := "[" + x + "]";
    assert "[" + x + "]:" + d == h + ":" + d;
    BracketedHost(x, multiple);
    OneHostWithPort(h, Strings.AsciiLower(x), d, host, port, multiple);
  }

  /** A bracketed host is in the class, holds no comma, and names the address inside the brackets. */
  lemma {:induction false} BracketedHost(x: string, multiple: bool)
    requires x != [] && AllAllowed(x, multiple) && '[' !in x && ']' !in x && ',' !in x
    ensures var h := "[" + x + "]";
            AllAllowed(h, multiple) && ',' !in h && UrlHostname(h) == Hostname(Some(Strings.AsciiLower(x)))
            && Strings.AsciiLower(x) != []
  {
    var h := "[" + x + "]";
    forall i | 0 <= i < |h| ensures Allowed(h[i], multiple) && h[i] != ',' {
      if 0 < i < |h| - 1 {
        assert h[i] == x[i - 1];
      }
    }
    BracketsStripped(x, "");
    assert h + "" == h;
  }
}
