/**
 The network section of the report (sbor.py, `creating_file`). The operating
 system's table of interfaces is an input: for every interface a name and
 its addresses, each tagged with an address family. Every interface except
 the Windows loopback pseudo-interface becomes a record of three text fields,
 MAC, IPv4 and IPv6, each "N/A" until an address of that family is seen.
 */
module Network {
  import Strings

  /** The address families the collector tells apart; `Other` stands for
      every family it ignores. */
  datatype Family = Link | Inet | Inet6 | Other

  /** One address of an interface, as the operating system reports it. */
  datatype Address = Address(family: Family, address: string)

  /** One interface of the operating system's table. */
  datatype Nic = Nic(name: string, addrs: seq<Address>)

  /** The record kept for one interface. */
  datatype Interface = Interface(mac: string, ipv4: string, ipv6: string)

  const NotAvailable: string := "N/A"

  /** The interface the collector skips by name. */
  const LoopbackName: string := "Loopback Pseudo-Interface 1"

  /** The record an interface starts with. */
  const Blank: Interface := Interface(NotAvailable, NotAvailable, NotAvailable)

  /** The text kept for an address of family `f`: a MAC address has its
      dashes turned into colons, an IPv6 address loses its zone index (the
      part from the first '%' on), an IPv4 address is kept as it is. */
  function Normalize(f: Family, address: string): (r: string)
    ensures f == Link ==> |r| == |address| && '-' !in r
    ensures f == Link ==> forall i :: 0 <= i < |address| ==> r[i] == (if address[i] == '-' then ':' else address[i])
    ensures f == Inet6 ==> r <= address && '%' !in r
    ensures f == Inet6 && |r| < |address| ==> address[|r|] == '%'
    ensures f == Inet || f == Other ==> r == address
  {
    match f
    case Link => Strings.Replace(address, '-', ':')
    case Inet6 => Strings.BeforeFirst(address, '%')
    case _ => address
  }

  /** The field of a record that holds addresses of family `f`. */
  function Field(iface: Interface, f: Family): string
    requires f != Other
  {
    match f
    case Link => iface.mac
    case Inet => iface.ipv4
    case Inet6 => iface.ipv6
  }

  /** The effect of one address on the record being built: the field of its
      family is overwritten, every other field stays as it was, and an
      address of an ignored family leaves the record unchanged. */
  function Record(iface: Interface, a: Address): (r: Interface)
    ensures a.family == Other ==> r == iface
    ensures forall g :: g != Other ==>
      Field(r, g) == if g == a.family then Normalize(g, a.address) else Field(iface, g)
  {
    match a.family
    case Link => iface.(mac := Normalize(Link, a.address))
    case Inet => iface.(ipv4 := Normalize(Inet, a.address))
    case Inet6 => iface.(ipv6 := Normalize(Inet6, a.address))
    case Other => iface
  }

  /** The record after the address loop has visited `addrs` in order. The
      stored MAC never holds a dash and the stored IPv6 address never holds
      a zone separator. */
  function BuildInterface(addrs: seq<Address>): (iface: Interface)
    ensures '-' !in iface.mac
    ensures '%' !in iface.ipv6
  {
    if |addrs| == 0 then Blank
    else Record(BuildInterface(addrs[..|addrs| - 1]), addrs[|addrs| - 1])
  }

  /** `j` is the position of the last address of family `f`. */
  ghost predicate IsLastOfFamily(addrs: seq<Address>, f: Family, j: int) {
    && 0 <= j < |addrs|
    && addrs[j].family == f
    && forall k :: j < k < |addrs| ==> addrs[k].family != f
  }

  /** A field whose family has no address in the list stays "N/A". */
  lemma {:induction false} FieldWithoutFamily(addrs: seq<Address>, f: Family)
    requires f != Other
    requires forall j :: 0 <= j < |addrs| ==> addrs[j].family != f
    ensures Field(BuildInterface(addrs), f) == NotAvailable
  {
    if |addrs| > 0 {
      var init := addrs[..|addrs| - 1];
      assert forall j :: 0 <= j < |init| ==> init[j].family == addrs[j].family;
      FieldWithoutFamily(init, f);
    }
  }

  /** A field holds the last address of its family, normalized. */
  lemma {:induction false} LastAddressWins(addrs: seq<Address>, f: Family, j: int)
    requires f != Other
    requires IsLastOfFamily(addrs, f, j)
    ensures Field(BuildInterface(addrs), f) == Normalize(f, addrs[j].address)
  {
    if j < |addrs| - 1 {
      var init := addrs[..|addrs| - 1];
      assert IsLastOfFamily(init, f, j);
      LastAddressWins(init, f, j);
    }
  }

  /** An interface with a single IPv4 address reports "N/A" for MAC and IPv6. */
  lemma OnlyIpv4(a: string)
    ensures BuildInterface([Address(Inet, a)]) == Interface(NotAvailable, a, NotAvailable)
  {
    assert [Address(Inet, a)][..0] == [];
  }

  /** Removing an address of an ignored family anywhere in the list does not
      change the record. */
  lemma {:induction false} IgnoredFamilyIsInvisible(xs: seq<Address>, o: Address, ys: seq<Address>)
    requires o.family == Other
    ensures BuildInterface(xs + [o] + ys) == BuildInterface(xs + ys)
    decreases |ys|
  {
    if |ys| == 0 {
      assert xs + [o] + ys == xs + [o];
      assert (xs + [o])[..|xs|] == xs;
      assert xs + ys == xs;
    } else {
      var init := ys[..|ys| - 1];
      var last := ys[|ys| - 1];
      assert (xs + [o] + ys)[..|xs + [o] + ys| - 1] == xs + [o] + init;
      assert (xs + ys)[..|xs + ys| - 1] == xs + init;
      IgnoredFamilyIsInvisible(xs, o, init);
    }
  }

  /** Among the first `n` interfaces, `i` is the last one carrying its name. */
  ghost predicate IsLastNamed(nics: seq<Nic>, n: int, i: int)
    requires n <= |nics|
  {
    && 0 <= i < n
    && forall j :: i < j < n ==> nics[j].name != nics[i].name
  }

  /** The names the interface loop records after visiting the first `n`
      interfaces. */
  ghost function RecordedNames(nics: seq<Nic>, n: nat): set<string>
    requires n <= |nics|
  {
    set i | 0 <= i < n && nics[i].name != LoopbackName :: nics[i].name
  }

  /** The interface loop: every interface except the loopback
      pseudo-interface is recorded under its name, a later interface of the
      same name replacing an earlier one. */
  method CollectNetwork(nics: seq<Nic>) returns (net: map<string, Interface>)
    ensures LoopbackName !in net
    ensures net.Keys == set i | 0 <= i < |nics| && nics[i].name != LoopbackName :: nics[i].name
    ensures forall i :: IsLastNamed(nics, |nics|, i) && nics[i].name != LoopbackName ==>
      nics[i].name in net && net[nics[i].name] == BuildInterface(nics[i].addrs)
  {
    net := map[];
    var n := 0;
    while n < |nics|
      invariant 0 <= n <= |nics|
      invariant net.Keys == RecordedNames(nics, n)
      invariant forall i :: IsLastNamed(nics, n, i) && nics[i].name != LoopbackName ==>
        nics[i].name in net && net[nics[i].name] == BuildInterface(nics[i].addrs)
    {
      var nic := nics[n];
      ghost var before := net;
      if nic.name != LoopbackName {
        net := net[nic.name := BuildInterface(nic.addrs)];
      }
      RecordedNamesStep(nics, n);
      LastNamedStep(nics, n, before, net);
      n := n + 1;
    }
  }

  lemma RecordedNamesStep(nics: seq<Nic>, n: nat)
    requires n < |nics|
    ensures RecordedNames(nics, n + 1) ==
      RecordedNames(nics, n) + if nics[n].name == LoopbackName then {} else {nics[n].name}
  {
  }

  /** Visiting `nics[n]` keeps every later-wins entry recorded so far. */
  lemma LastNamedStep(nics: seq<Nic>, n: nat, before: map<string, Interface>, after: map<string, Interface>)
    requires n < |nics|
    requires forall i :: IsLastNamed(nics, n, i) && nics[i].name != LoopbackName ==>
      nics[i].name in before && before[nics[i].name] == BuildInterface(nics[i].addrs)
    requires after == if nics[n].name == LoopbackName then before
                      else before[nics[n].name := BuildInterface(nics[n].addrs)]
    ensures forall i :: IsLastNamed(nics, n + 1, i) && nics[i].name != LoopbackName ==>
      nics[i].name in after && after[nics[i].name] == BuildInterface(nics[i].addrs)
  {
    forall i | IsLastNamed(nics, n + 1, i) && nics[i].name != LoopbackName
      ensures nics[i].name in after && after[nics[i].name] == BuildInterface(nics[i].addrs)
    {
      if i < n {
        assert IsLastNamed(nics, n, i);
      }
    }
  }
}
