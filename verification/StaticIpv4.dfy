/** The two validators of a static IPv4 configuration, and where they differ. */
module StaticIpv4 {
  import opened Options
  import opened Text
  import opened Ipv4

  datatype Field = Address | Prefix | Gateway | Dns(number: nat)

  datatype Problem =
    NotIpv4 | OutOfRange | IsNetwork | IsBroadcast | OutsideSubnet | ReservedAddress | SameAsVm | Unusable | Duplicate

  datatype Issue = Issue(field: Field, problem: Problem)

  function Fields(issues: seq<Issue>): set<Field> { set issue | issue in issues :: issue.field }

  function Add(issues: seq<Issue>, f: Field, p: Problem): (r: seq<Issue>)
    ensures Fields(r) == Fields(issues) + {f} && r != []
    ensures forall issue :: issue in r <==> issue in issues || issue == Issue(f, p)
  {
    assert forall issue :: issue in issues + [Issue(f, p)] <==> issue in issues || issue == Issue(f, p);
    assert Issue(f, p) in issues + [Issue(f, p)];
    issues + [Issue(f, p)]
  }

  /** An address, read or refused. */
  type Reading = r: Option<nat> | r.Some? ==> r.value < ALL witness None

  function Read(text: string): Reading { Parse(Strip(text)) }

  function ReadAll(texts: seq<string>): (r: seq<Reading>)
    ensures |r| == |texts| && forall i :: 0 <= i < |r| ==> r[i] == Read(texts[i])
  {
    seq(|texts|, i requires 0 <= i < |texts| => Read(texts[i]))
  }

  // ---------------------------------------------------------------- what is wrong with each field

  predicate InRange(prefix: int) { 8 <= prefix <= 32 }

  predicate IsReserved(g: nat, a: nat, prefix: int)
    requires InRange(prefix)
  {
    g == NetworkAddress(a, prefix) || g == BroadcastAddress(a, prefix)
  }

  predicate AddressBad(a: nat, prefix: int) { InRange(prefix) && IsReserved(a, a, prefix) }

  predicate GatewayBad(a: nat, prefix: int, g: Reading) {
    g.None? || (InRange(prefix) && (!InNetwork(g.value, a, prefix) || IsReserved(g.value, a, prefix) || g.value == a))
  }

  predicate DnsBad(dns: seq<Reading>, i: nat)
    requires i < |dns|
  {
    dns[i].None? || dns[i].value in {0, ALL - 1} || !IsNew(dns, i)
  }

  predicate IsNew(dns: seq<Reading>, i: nat)
    requires i < |dns|
  {
    dns[i] !in dns[..i]
  }

  function If(c: bool, f: Field): set<Field> { if c then {f} else {} }

  function BadFields(a: nat, prefix: int, g: Reading): set<Field> {
    If(AddressBad(a, prefix), Address) + If(!InRange(prefix), Prefix) + If(GatewayBad(a, prefix, g), Gateway)
  }

  /** The servers are numbered from one. */
  function BadServers(dns: seq<Reading>, n: nat): set<Field>
    requires n <= |dns|
  {
    set i: nat | i < n && DnsBad(dns, i) :: Dns(i + 1)
  }

  /** No field has a problem. */
  predicate Sound(a: Reading, prefix: int, g: Reading, dns: seq<Reading>) {
    a.Some? && InRange(prefix) && !AddressBad(a.value, prefix) && !GatewayBad(a.value, prefix, g)
    && forall i: nat :: i < |dns| ==> !DnsBad(dns, i)
  }

  // ---------------------------------------------------------------- the list of problems

  /** Prefix, gateway and address, with a subnet of 2 to the power 32 - `prefix` addresses. */
  ghost predicate WrongInSubnet(issue: Issue, a: nat, prefix: int, g: Reading) {
    || (issue == Issue(Prefix, OutOfRange) && (prefix < 8 || prefix > 32))
    || (issue == Issue(Gateway, NotIpv4) && g == None)
    || (8 <= prefix <= 32 && WrongPlace(issue, a, Size(prefix), g))
  }

  ghost predicate WrongPlace(issue: Issue, a: nat, size: nat, g: Reading)
    requires size > 0
  {
    || (issue == Issue(Address, IsNetwork) && a % size == 0)
    || (issue == Issue(Address, IsBroadcast) && a % size == size - 1)
    || (issue == Issue(Gateway, OutsideSubnet) && g.Some? && g.value / size != a / size)
    || (issue == Issue(Gateway, ReservedAddress) && g.Some? && g.value / size == a / size
        && (g.value % size == 0 || g.value % size == size - 1))
    || (issue == Issue(Gateway, SameAsVm) && g == Some(a))
  }

  /** Name server `i`, counted from one in the issue, cannot be read, cannot be used or was named before. */
  ghost predicate WrongServer(issue: Issue, dns: seq<Reading>, i: nat)
    requires i < |dns|
  {
    || (issue == Issue(Dns(i + 1), NotIpv4) && dns[i] == None)
    || (issue == Issue(Dns(i + 1), Unusable) && (dns[i] == Some(0) || dns[i] == Some(0xFFFF_FFFF)))
    || (issue == Issue(Dns(i + 1), Duplicate) && dns[i] != None && exists j :: 0 <= j < i && dns[j] == dns[i])
  }

  ghost predicate WrongServers(issue: Issue, dns: seq<Reading>, n: nat)
    requires n <= |dns|
  {
    exists i: nat :: i < n && WrongServer(issue, dns, i)
  }

  method CheckSubnet(a: nat, prefix: int, g: Reading) returns (issues: seq<Issue>)
    ensures Fields(issues) == BadFields(a, prefix, g)
    ensures forall issue :: issue in issues <==> WrongInSubnet(issue, a, prefix, g)
  {
    issues := [];
    if !(8 <= prefix <= 32) {
      issues := Add(issues, Prefix, OutOfRange);
    }
    if g.None? {
      issues := Add(issues, Gateway, NotIpv4);
    }
    if 8 <= prefix <= 32 {
      var network, broadcast := NetworkAddress(a, prefix), BroadcastAddress(a, prefix);
      SubnetMeans(if g.Some? then g.value else a, a, prefix);
      if a == network {
        issues := Add(issues, Address, IsNetwork);
      }
      if a == broadcast {
        issues := Add(issues, Address, IsBroadcast);
      }
      if g.Some? {
        if !InNetwork(g.value, a, prefix) {
          issues := Add(issues, Gateway, OutsideSubnet);
        } else if g.value == network || g.value == broadcast {
          issues := Add(issues, Gateway, ReservedAddress);
        }
        if g.value == a {
          issues := Add(issues, Gateway, SameAsVm);
        }
      }
    }
  }

  lemma NextServer(dns: seq<Reading>, i: nat)
    requires i < |dns|
    ensures BadServers(dns, i + 1) == BadServers(dns, i) + If(DnsBad(dns, i), Dns(i + 1))
    ensures dns[..i + 1] == dns[..i] + [dns[i]]
  {
    var next := BadServers(dns, i) + If(DnsBad(dns, i), Dns(i + 1));
    forall f | f in BadServers(dns, i + 1) ensures f in next {
      var k: nat :| k < i + 1 && DnsBad(dns, k) && f == Dns(k + 1);
    }
  }

  lemma NextWrong(dns: seq<Reading>, i: nat)
    requires i < |dns|
    ensures forall issue :: WrongServers(issue, dns, i + 1) <==>
              WrongServers(issue, dns, i) || WrongServer(issue, dns, i)
    ensures (exists j :: 0 <= j < i && dns[j] == dns[i]) <==> dns[i] in dns[..i]
  {
    forall issue ensures WrongServers(issue, dns, i + 1) <==>
        WrongServers(issue, dns, i) || WrongServer(issue, dns, i)
    {
      if k: nat :| k < i + 1 && WrongServer(issue, dns, k) {
        assert k < i ==> WrongServers(issue, dns, i);
      }
    }
  }

  /** The loop over the name servers. */
  method CheckDns(dns: seq<Reading>) returns (issues: seq<Issue>)
    ensures Fields(issues) == BadServers(dns, |dns|)
    ensures forall issue :: issue in issues <==> WrongServers(issue, dns, |dns|)
  {
    issues := [];
    var seen: set<nat> := {};
    for i: nat := 0 to |dns|
      invariant Fields(issues) == BadServers(dns, i)
      invariant forall issue :: issue in issues <==> WrongServers(issue, dns, i)
      invariant forall d :: d in seen <==> Some(d) in dns[..i]
    {
      NextServer(dns, i);
      NextWrong(dns, i);
      var d := dns[i];
      if d.None? {
        issues := Add(issues, Dns(i + 1), NotIpv4);
      } else {
        if d.value == 0 || d.value == ALL - 1 {
          issues := Add(issues, Dns(i + 1), Unusable);
        }
        if d.value in seen {
          issues := Add(issues, Dns(i + 1), Duplicate);
        }
        seen := seen + {d.value};
      }
    }
  }

  /** The fields found wrong are exactly those that are; only an unreadable address ends the check. */
  method ValidateStaticIpv4(address: string, prefix: int, gateway: string, servers: seq<string>)
    returns (issues: seq<Issue>)
    ensures var a, g, dns := Read(address), Read(gateway), ReadAll(servers);
            && (issues == [] <==> Sound(a, prefix, g, dns))
            && Fields(issues) == (if a.None? then {Address} else BadFields(a.value, prefix, g) + BadServers(dns, |dns|))
            && forall issue :: issue in issues <==>
                 if a.None? then issue == Issue(Address, NotIpv4)
                 else WrongInSubnet(issue, a.value, prefix, g) || WrongServers(issue, dns, |dns|)
  {
    var a := Read(address);
    if a.None? {
      issues := Add([], Address, NotIpv4);
    } else {
      var g, dns := Read(gateway), ReadAll(servers);
      var subnet := CheckSubnet(a.value, prefix, g);
      var named := CheckDns(dns);
      issues := subnet + named;
      FieldsOfBoth(subnet, named);
      SoundIffNoneBad(a, prefix, g, dns);
    }
  }

  lemma FieldsOfBoth(s: seq<Issue>, t: seq<Issue>)
    ensures Fields(s + t) == Fields(s) + Fields(t)
    ensures s + t == [] <==> Fields(s + t) == {}
  {
    assert forall issue :: issue in s + t <==> issue in s || issue in t;
    if s + t != [] {
      assert (s + t)[0] in s + t;
      assert (s + t)[0].field in Fields(s + t);
    }
  }

  lemma SoundIffNoneBad(a: Reading, prefix: int, g: Reading, dns: seq<Reading>)
    requires a.Some?
    ensures Sound(a, prefix, g, dns) <==> BadFields(a.value, prefix, g) + BadServers(dns, |dns|) == {}
  {
    var bad, servers := BadFields(a.value, prefix, g), BadServers(dns, |dns|);
    if bad + servers == {} {
      assert Address !in bad + servers && Prefix !in bad + servers && Gateway !in bad + servers;
      forall i: nat | i < |dns| ensures !DnsBad(dns, i) {
        assert Dns(i + 1) !in bad + servers;
      }
    }
  }

  /** The code keeps texts where the model keeps numbers: equal texts are equal addresses, and the two
      unusable ones are the lowest and the highest. */
  lemma TextsAreNumbers(m: nat, n: nat)
    requires m < ALL && n < ALL
    ensures Format(m) == Format(n) <==> m == n
    ensures Format(m) == "0.0.0.0" <==> m == 0
    ensures Format(m) == "255.255.255.255" <==> m == ALL - 1
  {
    var lowest, highest: nat := 0, ALL - 1;
    ParseFormat(m);
    ParseFormat(n);
    ParseFormat(lowest);
    ParseFormat(highest);
    DottedLowest(lowest);
    DottedHighest(highest);
  }

  lemma DottedLowest(n: nat)
    requires n == 0
    ensures Format(n) == "0.0.0.0"
  {
    ZeroTexts(n);
    DottedZero();
    FourEqualOctets(n, n, "0", "0.0.0.0");
  }

  lemma DottedHighest(n: nat)
    requires n == ALL - 1
    ensures Format(n) == "255.255.255.255"
  {
    HighTexts(n, 255);
    DottedHigh();
    FourEqualOctets(n, 255, "255", "255.255.255.255");
  }

  lemma ZeroTexts(n: nat)
    requires n == 0
    ensures FormatOctet(n) == "0" && Compose(n, n, n, n) == n
  {
  }

  lemma HighTexts(n: nat, o: nat)
    requires n == ALL - 1 && o == 255
    ensures FormatOctet(o) == "255" && Compose(o, o, o, o) == n
  {
  }

  lemma DottedZero()
    ensures "0" + ("." + ("0" + ("." + ("0" + ("." + "0"))))) == "0.0.0.0"
  {
  }

  lemma DottedHigh()
    ensures "255" + ("." + ("255" + ("." + ("255" + ("." + "255"))))) == "255.255.255.255"
  {
  }

  lemma FourEqualOctets(n: nat, o: nat, s: string, dotted: string)
    requires o < 256 && FormatOctet(o) == s && n == Compose(o, o, o, o)
    requires s + ("." + (s + ("." + (s + ("." + s))))) == dotted
    ensures n < ALL && Format(n) == dotted
  {
    ComposedOctets(o, o, o, o);
    assert FormatParts(n) == [s, s, s, s];
    JoinFour(s);
  }

  lemma JoinFour(s: string)
    ensures Join([s, s, s, s], '.') == s + ("." + (s + ("." + (s + ("." + s)))))
  {
    assert [s, s, s, s][1..] == [s, s, s] && [s, s, s][1..] == [s, s] && [s, s][1..] == [s];
    assert Join([s], '.') == s;
    assert Join([s, s], '.') == s + ("." + s);
    assert Join([s, s, s], '.') == s + ("." + (s + ("." + s)));
  }

  // ---------------------------------------------------------------- the request model

  predicate AllReadDistinct(dns: seq<Reading>) {
    (forall i :: 0 <= i < |dns| ==> dns[i].Some?) && forall i: nat :: i < |dns| ==> IsNew(dns, i)
  }

  /** What the request model accepts: it knows nothing of reserved gateways and unusable servers. */
  predicate Accepts(a: Reading, prefix: int, g: Reading, dns: seq<Reading>) {
    a.Some? && g.Some? && InRange(prefix) && |dns| <= 8 && HostAndGateway(a.value, prefix, g.value)
    && AllReadDistinct(dns)
  }

  predicate HostAndGateway(a: nat, prefix: int, g: nat)
    requires InRange(prefix)
  {
    !IsReserved(a, a, prefix) && InNetwork(g, a, prefix) && g != a
  }

  /** That is: an address that is neither the first nor the last of its subnet, another address of that
      subnet as gateway, and at most eight different name servers. */
  lemma AcceptsMeans(a: Reading, prefix: int, g: Reading, dns: seq<Reading>)
    ensures Accepts(a, prefix, g, dns) <==>
            && a.Some? && g.Some? && 8 <= prefix <= 32 && |dns| <= 8
            && a.value % Size(prefix) != 0 && a.value % Size(prefix) != Size(prefix) - 1
            && g.value / Size(prefix) == a.value / Size(prefix) && g != a
            && forall i :: 0 <= i < |dns| ==> dns[i].Some? && forall j :: 0 <= j < i ==> dns[j] != dns[i]
  {
    if a.Some? && g.Some? && 8 <= prefix <= 32 {
      SubnetMeans(g.value, a.value, prefix);
    }
    forall i: nat | i < |dns| ensures IsNew(dns, i) <==> forall j :: 0 <= j < i ==> dns[j] != dns[i] {
    }
  }

  method CheckHostAndGateway(a: nat, prefix: int, g: nat) returns (ok: bool)
    requires InRange(prefix)
    ensures ok <==> HostAndGateway(a, prefix, g)
  {
    if a == NetworkAddress(a, prefix) {
      return false;
    }
    if a == BroadcastAddress(a, prefix) {
      return false;
    }
    if !InNetwork(g, a, prefix) {
      return false;
    }
    return g != a;
  }

  function Normal(text: string): string
    requires Read(text).Some?
  {
    Format(Read(text).value)
  }

  class Ipv4Config {
    var address: string
    var prefix: int
    var gateway: string
    var dnsServers: seq<string>

    constructor (address: string, prefix: int, gateway: string, dnsServers: seq<string>)
      ensures this.address == address && this.prefix == prefix && this.gateway == gateway
              && this.dnsServers == dnsServers
    {
      this.address, this.prefix, this.gateway, this.dnsServers := address, prefix, gateway, dnsServers;
    }

    /** Rewrites the fields in dotted form; the field constraints have been checked before. */
    method ValidateAddresses() returns (ok: bool)
      requires InRange(prefix) && |dnsServers| <= 8
      modifies this
      ensures ok <==> Accepts(Read(old(address)), prefix, Read(old(gateway)), ReadAll(old(dnsServers)))
      ensures prefix == old(prefix) && (!ok ==> dnsServers == old(dnsServers))
      ensures ok ==> address == Format(Read(old(address)).value) && gateway == Format(Read(old(gateway)).value)
      ensures ok ==> AreNormal(dnsServers, ReadAll(old(dnsServers)))
    {
      ok := ValidateReadings(Read(address), Read(gateway), ReadAll(dnsServers));
    }

    method ValidateReadings(a: Reading, g: Reading, dns: seq<Reading>) returns (ok: bool)
      requires InRange(prefix) && |dns| <= 8
      modifies this
      ensures ok <==> Accepts(a, prefix, g, dns)
      ensures prefix == old(prefix) && (!ok ==> dnsServers == old(dnsServers))
      ensures ok ==> address == Format(a.value) && gateway == Format(g.value) && AreNormal(dnsServers, dns)
    {
      if a.None? {
        return false;
      }
      address := Format(a.value);
      if g.None? {
        return false;
      }
      gateway := Format(g.value);
      var fits := CheckHostAndGateway(a.value, prefix, g.value);
      if !fits {
        return false;
      }
      var normalized := NormalizeDns(dns);
      if normalized.None? {
        return false;
      }
      dnsServers := normalized.value;
      return true;
    }
  }

  /** The dotted forms of what was read. */
  predicate AreNormal(normal: seq<string>, dns: seq<Reading>) {
    |normal| == |dns| && forall i :: 0 <= i < |dns| ==> dns[i].Some? && normal[i] == Format(dns[i].value)
  }

  lemma NextNormal(normal: seq<string>, dns: seq<Reading>, i: nat)
    requires i < |dns| && AreNormal(normal, dns[..i]) && dns[i].Some?
    ensures AreNormal(normal + [Format(dns[i].value)], dns[..i + 1])
  {
  }

  method NormalizeDns(dns: seq<Reading>) returns (r: Option<seq<string>>)
    ensures r.Some? <==> AllReadDistinct(dns)
    ensures r.Some? ==> AreNormal(r.value, dns)
  {
    var seen: set<nat>, normalized: seq<string> := {}, [];
    for i: nat := 0 to |dns|
      invariant AreNormal(normalized, dns[..i])
      invariant forall j: nat :: j < i ==> IsNew(dns, j)
      invariant forall d :: d in seen <==> Some(d) in dns[..i]
    {
      NextServer(dns, i);
      assert dns[i].Some? ==> (dns[i].value in seen <==> !IsNew(dns, i));
      if dns[i].None? || dns[i].value in seen {
        return None;
      }
      NextNormal(normalized, dns, i);
      seen, normalized := seen + {dns[i].value}, normalized + [Format(dns[i].value)];
    }
    assert dns[..|dns|] == dns;
    r := Some(normalized);
  }

  // ---------------------------------------------------------------- how the two relate

  predicate GatewayUsable(a: Reading, prefix: int, g: Reading) {
    a.Some? && g.Some? && InRange(prefix) && !IsReserved(g.value, a.value, prefix)
  }

  predicate DnsUsable(dns: seq<Reading>) {
    forall i :: 0 <= i < |dns| && dns[i].Some? ==> dns[i].value !in {0, ALL - 1}
  }

  lemma ServersSound(dns: seq<Reading>)
    ensures (forall i: nat :: i < |dns| ==> !DnsBad(dns, i)) <==> AllReadDistinct(dns) && DnsUsable(dns)
  {
    if AllReadDistinct(dns) && DnsUsable(dns) {
      forall i: nat | i < |dns| ensures !DnsBad(dns, i) {
        assert dns[i].Some? && IsNew(dns, i);
      }
    }
    if forall i: nat :: i < |dns| ==> !DnsBad(dns, i) {
      forall i: nat | i < |dns| ensures dns[i].Some? && dns[i].value !in {0, ALL - 1} && IsNew(dns, i) {
        assert !DnsBad(dns, i);
      }
    }
  }

  /** The list of problems is empty exactly when the request model accepts the values, the gateway is
      not the first or last address of the subnet, and no name server is the lowest or highest
      address; the limit of eight servers aside. */
  lemma ValidatorsDiffer(a: Reading, prefix: int, g: Reading, dns: seq<Reading>)
    requires |dns| <= 8
    ensures Sound(a, prefix, g, dns) <==> Accepts(a, prefix, g, dns) && GatewayUsable(a, prefix, g) && DnsUsable(dns)
  {
    ServersSound(dns);
  }

  /** 192.168.1.10/24 with the gateway 192.168.1.0: the request model accepts what the list of
      problems objects to. */
  lemma ReservedGatewayDisagrees()
    ensures var a, g: Reading := Some(0xC0A8_010A), Some(0xC0A8_0100);
            Accepts(a, 24, g, []) && !Sound(a, 24, g, [])
  {
    assert Size(24) == 256 by {
      assert Pow2(4) == 16;
      assert Pow2(8) == 16 * Pow2(4);
    }
  }

  /** 192.168.1.10/24 with the gateway 192.168.1.1 and the name server 0.0.0.0: only the list objects. */
  lemma UnusableServerDisagrees()
    ensures var a: Reading, g: Reading, dns: seq<Reading> := Some(0xC0A8_010A), Some(0xC0A8_0101), [Some(0)];
            Accepts(a, 24, g, dns) && GatewayUsable(a, 24, g) && !Sound(a, 24, g, dns)
  {
    assert Size(24) == 256 by {
      assert Pow2(4) == 16;
      assert Pow2(8) == 16 * Pow2(4);
    }
    var dns: seq<Reading> := [Some(0)];
    assert DnsBad(dns, 0);
  }

  /** Whatever either validator lets through has room for a host: the prefix is at most 30. */
  lemma AcceptedPrefix(a: Reading, prefix: int, g: Reading, dns: seq<Reading>)
    requires Accepts(a, prefix, g, dns) || Sound(a, prefix, g, dns)
    ensures 8 <= prefix <= 30
  {
    HostNeedsRoom(a.value, prefix);
  }

  lemma NormalReads(text: string)
    requires Read(text).Some?
    ensures Read(Normal(text)) == Read(text) && Normal(text) == Strip(text)
  {
    FormatIsStripped(Read(text).value);
    ParseFormat(Read(text).value);
    FormatParse(Strip(text));
  }

  /** Normalised values mean the same and stay as they are: validation is idempotent. */
  lemma NormalisedReadsTheSame(texts: seq<string>, normal: seq<string>)
    requires AreNormal(normal, ReadAll(texts))
    ensures ReadAll(normal) == ReadAll(texts)
  {
    forall i | 0 <= i < |texts| ensures ReadAll(normal)[i] == ReadAll(texts)[i] {
      NormalReads(texts[i]);
    }
  }
}
