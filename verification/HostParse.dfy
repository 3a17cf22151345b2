/**
  Sandbox host names, `{port}-{sandbox_id}.{domain}`: printing them and parsing the Host header.
 */
module HostParse {
  import opened Wrappers
  import opened Text

  type Target = (nat, string)

  function LStripDots(s: string): string { if s != "" && s[0] == '.' then LStripDots(s[1..]) else s }

  function CleanDomain(domain: string): string { LStripDots(Strip(domain)) }

  function FormatSandboxHost(port: nat, sandboxId: string, domain: string, debug: bool): string {
    if debug then "localhost:" + FromNat(port)
    else FromNat(port) + "-" + Strip(sandboxId) + "." + CleanDomain(domain)
  }

  /** The first of a comma-separated list. */
  function FirstOf(raw: string): string {
    Strip(if IndexOf(raw, ',') < 0 then raw else raw[..IndexOf(raw, ',')])
  }

  /** The text ends in a colon and digits. */
  predicate HasPort(s: string) { ':' in s && Digits(s[LastIndexOf(s, ':') + 1..]) }

  function StripPort(authority: string): string {
    if HasPort(authority) && authority[0] != '[' then authority[..LastIndexOf(authority, ':')] else authority
  }

  predicate IsPort(n: nat) { 1 <= n <= 65535 }

  /** `{port}-{sandbox_id}`, cut at the first dash. */
  function ParseLabel(name: string): Option<Target> {
    if '-' !in name then None
    else
      var i := IndexOf(name, '-');
      var portText, sid := name[..i], name[i + 1..];
      if !Digits(portText) || sid == "" || !IsPort(ToNat(portText)) then None
      else Some((ToNat(portText), sid))
  }

  function ParseIngressHost(hostHeader: string, domain: string, debug: bool, sandboxIdHeader: string,
      guestPortHeader: string):
    Option<Target>
  {
    var raw, sidHdr, portHdr := Strip(hostHeader), Strip(sandboxIdHeader), Strip(guestPortHeader);
    if debug && sidHdr != "" && Digits(portHdr) && IsPort(ToNat(portHdr)) then Some((ToNat(portHdr), sidHdr))
    else if raw == "" then None
    else
      var first := FirstOf(raw);
      if debug && LocalTarget(first, sidHdr).Some? then LocalTarget(first, sidHdr)
      else ParseAuthority(StripPort(first), CleanDomain(domain))
  }

  /** In debug mode a local address with a port stands for the sandbox named in the header. */
  function LocalTarget(first: string, sidHdr: string): Option<Target> {
    if HasPort(first) && Lower(first[..LastIndexOf(first, ':')]) in {"localhost", "127.0.0.1"} && sidHdr != ""
       && IsPort(ToNat(first[LastIndexOf(first, ':') + 1..]))
    then Some((ToNat(first[LastIndexOf(first, ':') + 1..]), sidHdr))
    else None
  }

  function ParseAuthority(authority: string, domain: string): Option<Target> {
    if domain != "" && EndsWith(authority, "." + domain)
        then ParseLabel(authority[..|authority| - 1 - |domain|]) else None
  }

  /** Parsing in production mode, which does not look at the other headers. */
  function Parse(host: string, domain: string): Option<Target> {
    ParseIngressHost(host, domain, false, "", "")
  }

  function Print(port: nat, sandboxId: string, domain: string): string {
    FormatSandboxHost(port, sandboxId, domain, false)
  }

  // ----- Printing, then parsing -----

  lemma {:induction false} DotsStripped(s: string)
    ensures LStripDots(s) == "" || (LStripDots(s)[|LStripDots(s)| - 1] == s[|s| - 1] && s != "")
    ensures |LStripDots(s)| <= |s|
  {
    if s != "" && s[0] == '.' { DotsStripped(s[1..]); }
  }

  /** The first label of a printed host: digits, a dash, the identifier. */
  function Label(port: nat, sid: string): string { FromNat(port) + "-" + sid }

  lemma LabelParses(port: nat, sid: string)
    ensures ParseLabel(Label(port, sid)) == if sid != "" && IsPort(port) then Some((port, sid)) else None
  {
    var d := FromNat(port);
    assert forall i :: 0 <= i < |d| ==> d[i] != '-';
    IndexIs(d, '-', sid);
    assert Label(port, sid) == d + ['-'] + sid;
    assert Label(port, sid)[..|d|] == d && Label(port, sid)[|d| + 1..] == sid;
  }

  /** A proper prefix of that label holds a shorter identifier, if any. */
  lemma LabelPrefixParses(port: nat, sid: string, n: nat)
    requires n < |Label(port, sid)|
    ensures var t := ParseLabel(Label(port, sid)[..n]); t.Some? ==> |t.value.1| < |sid|
  {
    var d, whole := FromNat(port), Label(port, sid);
    var name := whole[..n];
    assert whole == d + ['-'] + sid;
    if n > |d| {
      assert name == d + ['-'] + sid[..n - |d| - 1];
      assert forall i :: 0 <= i < |d| ==> d[i] != '-';
      IndexIs(d, '-', sid[..n - |d| - 1]);
    } else {
      assert name == d[..n];
      assert forall i :: 0 <= i < |d| ==> d[i] != '-';
    }
  }

  /** The domain survives being printed and parsed: it is not empty, has no comma and does not
      end like a port. */
  predicate Reparsable(domain: string) { domain != "" && ',' !in domain && !HasPort(domain) }

  lemma CleanEnds(domain: string)
    ensures var d := CleanDomain(domain); d != "" ==> !IsSpace(d[|d| - 1])
  {
    DotsStripped(Strip(domain));
    StripIsTrimmed(domain);
  }

  /** A host that starts with a digit and ends without white space is its own first. */
  lemma HostIsTrimmed(name: string, rest: string)
    requires name != "" && IsDigit(name[0]) && ',' !in name && rest != "" && !IsSpace(rest[|rest| - 1])
    ensures var host := name + rest;
            && Strip(host) == host && host[0] == name[0]
            && (',' !in rest ==> FirstOf(host) == host)
            && (',' in rest ==> ',' !in FirstOf(host))
  {
    var host := name + rest;
    assert host[0] == name[0] && host[|host| - 1] == rest[|rest| - 1];
    StripIsTrimmed(host);
    if ',' in rest {
      var j :| 0 <= j < |rest| && rest[j] == ',';
      assert host[|name| + j] == ',';
      var cut := host[..IndexOf(host, ',')];
      assert ',' !in cut;
      StripKeepsOut(cut, ',');
    } else {
      assert ',' !in host;
    }
  }

  lemma LabelStarts(port: nat, sid: string)
    requires ',' !in sid
    ensures var name := Label(port, sid); name != "" && IsDigit(name[0]) && ',' !in name
  {
    var d := FromNat(port);
    assert Label(port, sid)[0] == d[0];
    assert forall i :: 0 <= i < |d| ==> IsDigit(d[i]) && d[i] != ',';
  }

  lemma StripKeepsOut(s: string, c: char)
    requires c !in s
    ensures c !in Strip(s)
  {
    LStripHead(s);
    RStripPrefix(LStrip(s));
    var l := LStrip(s);
    forall i | 0 <= i < |Strip(s)| ensures Strip(s)[i] != c {
      assert Strip(s)[i] == l[i] == s[|s| - |l| + i];
    }
  }

  lemma PortBehind(prefix: string, d: string)
    requires prefix != "" && prefix[|prefix| - 1] == '.'
    ensures HasPort(prefix + d) <==> HasPort(d)
    ensures ':' in d ==> LastIndexOf(prefix + d, ':') == |prefix| + LastIndexOf(d, ':')
  {
    if ':' in d {
      ColonBehind(prefix, d);
      assert (prefix + d)[|prefix| + LastIndexOf(d, ':') + 1..] == d[LastIndexOf(d, ':') + 1..];
    } else {
      NoPortBehind(prefix, d);
    }
  }

  lemma ColonBehind(prefix: string, d: string)
    requires ':' in d
    ensures LastIndexOf(prefix + d, ':') == |prefix| + LastIndexOf(d, ':') && ':' in prefix + d
  {
    var i := LastIndexOf(d, ':');
    assert d == d[..i] + [':'] + d[i + 1..];
    assert prefix + d == (prefix + d[..i]) + [':'] + d[i + 1..];
    LastIndexIs(prefix + d[..i], ':', d[i + 1..]);
  }

  lemma NoPortBehind(prefix: string, d: string)
    requires prefix != "" && prefix[|prefix| - 1] == '.' && ':' !in d
    ensures !HasPort(prefix + d)
  {
    var host := prefix + d;
    assert host[|prefix| - 1] == '.';
    if ':' in host {
      var i := LastIndexOf(host, ':');
      assert i < |prefix| - 1;
      assert host[i + 1..][|prefix| - 1 - (i + 1)] == '.';
    }
  }

  /** A label, a dot and the domain: cut at the domain and read. */
  lemma AuthorityParses(port: nat, sid: string, d: string)
    ensures ParseAuthority(Label(port, sid) + "." + d, d) ==
              if d != "" && sid != "" && IsPort(port) then Some((port, sid)) else None
  {
    var name := Label(port, sid);
    var authority := name + "." + d;
    assert authority[|name|..] == "." + d && authority[..|name|] == name;
    LabelParses(port, sid);
  }

  /** What parsing makes of a printed host, for every port, identifier and domain: the pair that
      was printed, or nothing, or a shorter identifier. */
  lemma PrintThenParse(port: nat, sid: string, domain: string)
    requires Trimmed(sid) && ',' !in sid
    ensures var t := Parse(Print(port, sid, domain), domain);
            if Reparsable(CleanDomain(domain)) && sid != "" && IsPort(port) then t == Some((port, sid))
            else t.Some? ==> |t.value.1| < |sid|
  {
    var name, d := Label(port, sid), CleanDomain(domain);
    var host, rest := Print(port, sid, domain), "." + d;
    StripIsTrimmed(sid);
    assert host == name + rest;
    CleanEnds(domain);
    LabelStarts(port, sid);
    HostIsTrimmed(name, rest);
    assert host == name + "." + d;
    if ',' in d {
      assert rest[1..] == d;
      assert ',' in rest;
      NoCommaNoSuffix(FirstOf(host), d);
    } else {
      assert ',' !in rest;
      assert Parse(host, domain) == ParseAuthority(StripPort(host), d);
      LabelSuffix(port, sid, d);
    }
  }

  lemma LabelSuffix(port: nat, sid: string, d: string)
    requires ',' !in sid
    ensures var host := Label(port, sid) + "." + d; var t := ParseAuthority(StripPort(host), d);
            if d != "" && !HasPort(d) && sid != "" && IsPort(port) then t == Some((port, sid))
            else t.Some? ==> |t.value.1| < |sid|
  {
    var name := Label(port, sid);
    var host := name + "." + d;
    LabelStarts(port, sid);
    assert host[0] == name[0];
    PortBehind(name + ".", d);
    if HasPort(d) {
      CutTooEarly(port, sid, d, |name| + 1 + LastIndexOf(d, ':'));
    } else {
      AuthorityParses(port, sid, d);
    }
  }

  /** Cutting a port off the domain leaves no room for the whole label before it. */
  lemma CutTooEarly(port: nat, sid: string, d: string, n: nat)
    requires n < |Label(port, sid)| + 1 + |d|
    ensures var t := ParseAuthority((Label(port, sid) + "." + d)[..n], d); t.Some? ==> |t.value.1| < |sid|
  {
    var name := Label(port, sid);
    if d != "" && 1 + |d| <= n {
      LabelPrefixParses(port, sid, n - 1 - |d|);
      assert (name + "." + d)[..n][..n - 1 - |d|] == name[..n - 1 - |d|];
    }
  }

  lemma SuffixChar(s: string, suffix: string, k: nat)
    requires k < |suffix| <= |s|
    ensures EndsWith(s, suffix) ==> s[|s| - |suffix| + k] == suffix[k]
  {
    if EndsWith(s, suffix) { assert s[|s| - |suffix|..][k] == s[|s| - |suffix| + k]; }
  }

  lemma NoCommaNoSuffix(first: string, domain: string)
    requires ',' !in first && ',' in domain
    ensures ParseAuthority(StripPort(first), domain) == None
  {
    var authority := StripPort(first);
    var j :| 0 <= j < |domain| && domain[j] == ',';
    assert forall k :: 0 <= k < |authority| ==> authority[k] == first[k] != ',';
    if 1 + |domain| <= |authority| {
      SuffixChar(authority, "." + domain, 1 + j);
    }
  }

  /** Round trip: outside debug mode parsing inverts printing for every port and every trimmed,
      non-empty, comma-free identifier, dashes included, exactly when the domain is not empty,
      has no comma and does not end like a port. */
  lemma ParseInvertsPrintIff(port: nat, sid: string, domain: string)
    requires 1 <= port <= 65535 && Trimmed(sid) && sid != "" && ',' !in sid
    ensures Parse(Print(port, sid, domain), domain) == Some((port, sid)) <==> Reparsable(CleanDomain(domain))
  {
    PrintThenParse(port, sid, domain);
  }

  /** With a port after it the domain may even end like one. */
  lemma ParseInvertsPrintWithPortIff(port: nat, sid: string, domain: string, portText: string)
    requires 1 <= port <= 65535 && Trimmed(sid) && sid != "" && ',' !in sid && Digits(portText)
    ensures Parse(Print(port, sid, domain) + ":" + portText, domain) == Some((port, sid)) <==>
              CleanDomain(domain) != "" && ',' !in CleanDomain(domain)
  {
    var name, d := Label(port, sid), CleanDomain(domain);
    var rest := "." + d + ":" + portText;
    var host := Print(port, sid, domain) + ":" + portText;
    StripIsTrimmed(sid);
    assert host == name + rest;
    assert rest[|rest| - 1] == portText[|portText| - 1];
    LabelStarts(port, sid);
    HostIsTrimmed(name, rest);
    assert ',' in rest <==> ',' in d by {
      assert rest[1..1 + |d|] == d;
      assert forall i :: 0 <= i < |portText| ==> IsDigit(portText[i]);
    }
    if ',' in d {
      NoCommaNoSuffix(FirstOf(host), d);
    } else {
      PortIsCut(name, d, portText);
      assert host == name + "." + d + ":" + portText;
      AuthorityParses(port, sid, d);
    }
  }

  lemma PortIsCut(name: string, d: string, portText: string)
    requires name != "" && IsDigit(name[0]) && Digits(portText)
    ensures StripPort(name + "." + d + ":" + portText) == name + "." + d
  {
    var authority := name + "." + d;
    var host := authority + ":" + portText;
    assert ':' !in portText;
    assert host == authority + [':'] + portText;
    LastIndexIs(authority, ':', portText);
    assert host[|authority| + 1..] == portText && host[..|authority|] == authority && host[0] == name[0];
  }

  lemma ParsedParts(host: string, domain: string)
    requires Parse(host, domain).Some?
    ensures var (port, sid) := Parse(host, domain).value;
            && IsPort(port) && sid != "" && ',' !in sid
            && CleanDomain(domain) != "" && ',' !in CleanDomain(domain)
  {
    var first, d := FirstOf(Strip(host)), CleanDomain(domain);
    var authority := StripPort(first);
    var raw := Strip(host);
    StripKeepsOut(if IndexOf(raw, ',') < 0 then raw else raw[..IndexOf(raw, ',')], ',');
    assert ',' !in first && ',' !in authority;
    if ',' in d { NoCommaNoSuffix(first, d); }
    var name := authority[..|authority| - 1 - |d|];
    assert ',' !in name && ',' !in name[IndexOf(name, '-') + 1..];
  }

  /** Printing a parsed host and parsing again gives the same pair exactly when the identifier
      carries no white space at its ends and the domain does not end like a port. */
  lemma ReparseIsStableIff(host: string, domain: string)
    requires Parse(host, domain).Some?
    ensures var (port, sid) := Parse(host, domain).value;
            Parse(Print(port, sid, domain), domain) == Some((port, sid)) <==>
              Trimmed(sid) && !HasPort(CleanDomain(domain))
  {
    var (port, sid) := Parse(host, domain).value;
    ParsedParts(host, domain);
    var s := Strip(sid);
    StripIsTrimmed(sid);
    StripIsTrimmed(s);
    StripKeepsOut(sid, ',');
    assert Print(port, sid, domain) == Print(port, s, domain);
    PrintThenParse(port, s, domain);
    LStripHead(sid);
    RStripPrefix(LStrip(sid));
  }

  /** It can fail: the host `80- x.d` names a sandbox with a leading blank. */
  lemma BlankIdentifierDoesNotReparse()
    ensures var host := Label(80, " x") + "." + "d";
            && Parse(host, "d") == Some((80, " x"))
            && Parse(Print(80, " x", "d"), "d") != Some((80, " x"))
  {
    var name := Label(80, " x");
    var host := name + "." + "d";
    LabelStarts(80, " x");
    StripIsTrimmed("d");
    assert host == name + ".d";
    HostIsTrimmed(name, ".d");
    PortBehind(name + ".", "d");
    AuthorityParses(80, " x", "d");
    ReparseIsStableIff(host, "d");
  }

  /** Neither does any under a domain that ends like a port. */
  lemma DomainLikeAPortDoesNotParse(port: nat, sid: string)
    requires 1 <= port <= 65535 && Trimmed(sid) && sid != "" && ',' !in sid
    ensures Parse(Print(port, sid, "d" + ":" + "80"), "d" + ":" + "80") != Some((port, sid))
  {
    var domain := "d" + ":" + "80";
    StripIsTrimmed(domain);
    LastIndexIs("d", ':', "80");
    assert domain[|"d"| + 1..] == "80" && domain[1] == ':' && domain[0] == 'd';
    assert CleanDomain(domain) == domain;
    ParseInvertsPrintIff(port, sid, domain);
  }

  /** In production the other headers do not count. */
  lemma HeadersDoNotCount(host: string, domain: string, sid: string, port: string)
    ensures ParseIngressHost(host, domain, false, sid, port) == Parse(host, domain)
  {
  }

  lemma LocalHostParts(port: nat)
    ensures var host := "localhost" + ":" + FromNat(port);
            && Strip(host) == host && FirstOf(host) == host && HasPort(host)
            && host[..LastIndexOf(host, ':')] == "localhost" && host[LastIndexOf(host, ':') + 1..] == FromNat(port)
  {
    var d := FromNat(port);
    var host := "localhost" + ":" + d;
    assert forall k :: 0 <= k < |d| ==> IsDigit(d[k]);
    assert ':' !in d && ',' !in host;
    assert host[0] == 'l' && host[|host| - 1] == d[|d| - 1];
    StripIsTrimmed(host);
    LastIndexIs("localhost", ':', d);
    assert host[..|"localhost"|] == "localhost" && host[|"localhost"| + 1..] == d;
  }

  /** Round trip in debug mode: the printed local address and a header with the identifier give the
      pair back, and so do the two headers, whatever the host. */
  lemma DebugRoundTrip(port: nat, sid: string, domain: string, host: string)
    requires IsPort(port) && Trimmed(sid) && sid != ""
    ensures ParseIngressHost(FormatSandboxHost(port, sid, domain, true), domain, true, sid, "") == Some((port, sid))
    ensures ParseIngressHost(host, domain, true, sid, FromNat(port)) == Some((port, sid))
  {
    LocalHostParts(port);
    StripIsTrimmed(sid);
    StripIsTrimmed(FromNat(port));
    LowerOfLocalhost();
    assert "localhost:" + FromNat(port) == "localhost" + ":" + FromNat(port);
  }

  lemma LowerOfLocalhost()
    ensures Lower("localhost") == "localhost"
  {
    assert forall k :: 0 <= k < |"localhost"| ==> LowerChar("localhost"[k]) == "localhost"[k];
  }

  /** Whatever is parsed names a port there is, and a sandbox. */
  lemma ParsedIsInRange(host: string, domain: string, debug: bool, sid: string, port: string)
    requires ParseIngressHost(host, domain, debug, sid, port).Some?
    ensures var t := ParseIngressHost(host, domain, debug, sid, port).value; 1 <= t.0 <= 65535 && t.1 != ""
  {
  }

  lemma BlanksGo(d: string)
    requires Trimmed(d) && d != ""
    ensures Strip(" " + d + " ") == d
  {
    assert (" " + d + " ")[1..] == d + " " && (d + " ")[..|d|] == d;
    assert LStrip(d + " ") == d + " ";
    assert LStrip(" " + d + " ") == d + " ";
    assert RStrip(d) == d;
  }

  /** White space around the domain and dots in front of it do not count. */
  lemma DomainIsCleaned(dots: nat, d: string)
    requires Trimmed(d) && d != "" && d[0] != '.'
    ensures CleanDomain(seq(dots, _ => '.') + d) == d && CleanDomain(" " + d + " ") == d
  {
    var dotted := seq(dots, _ => '.') + d;
    assert dotted[|dotted| - 1] == d[|d| - 1];
    StripIsTrimmed(dotted);
    DotsGo(dots, d);
    BlanksGo(d);
  }

  lemma {:induction false} DotsGo(dots: nat, d: string)
    requires d != "" && d[0] != '.'
    ensures LStripDots(seq(dots, _ => '.') + d) == d
  {
    var dotted := seq(dots, _ => '.') + d;
    if dots == 0 {
      assert dotted == d;
    } else {
      assert dotted[0] == '.' && dotted[1..] == seq(dots - 1, _ => '.') + d;
      DotsGo(dots - 1, d);
    }
  }

  /** Of a list of hosts the first one counts. */
  lemma FirstOfList(host: string, more: string, domain: string)
    requires ',' !in host && Trimmed(host) && host != "" && Trimmed(host + "," + more)
    ensures Parse(host + "," + more, domain) == Parse(host, domain)
  {
    var list := host + "," + more;
    StripIsTrimmed(list);
    StripIsTrimmed(host);
    IndexIs(host, ',', more);
    assert list[..|host|] == host;
  }

}
