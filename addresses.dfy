/**
 * `interface_addresses` / `get_interface_addresses`: the IPv4 addresses of the
 * host's interfaces that are neither loopback nor link-local. The host's
 * interface table (what `netifaces` reports) is a value handed in.
 */
module Addresses {
  import opened Wrappers
  import opened Inet

  /** `netifaces.AF_INET`, the family the handler always asks for. */
  const AF_INET := 2

  /** The outcome of `netifaces.ifaddresses(interface)`: it raises, or maps address families to the bound addresses. */
  datatype Lookup = Raises | Found(families: map<int, seq<string>>)

  /** What the handler can learn about its host: `socket.gethostname()`, `netifaces.interfaces()` and `netifaces.ifaddresses`. */
  datatype Host = Host(hostname: string, interfaces: seq<string>, ifaddresses: string -> Lookup)

  /** `netaddr.AddrFormatError`, raised for an address that does not parse. */
  datatype AddrFormatError = AddrFormatError(addr: string)

  /** Usable: neither link-local nor loopback. */
  predicate Usable(a: Packed)
  {
    !IsLinkLocal(a) && !IsLoopback(a)
  }

  /** One bound address: raises when it does not parse, is kept when it is usable, dropped otherwise. */
  function Classify(addr: string): (r: Result<seq<string>, AddrFormatError>)
    ensures r.Err? <==> Aton(addr).None?
    ensures r.Ok? ==> r.value == if Usable(Aton(addr).value) then [addr] else []
  {
    match Aton(addr)
    case None => Err(AddrFormatError(addr))
    case Some(ip) => if Usable(ip) then Ok([addr]) else Ok([])
  }

  /** The usable addresses of one interface; an interface whose lookup raises, or that has no IPv4 address, yields none. */
  function AddressesOn(host: Host, interface: string): Result<seq<string>, AddrFormatError>
  {
    match host.ifaddresses(interface)
    case Raises => Ok([])
    case Found(families) =>
      if AF_INET in families then ConcatMap(Classify, families[AF_INET]) else Ok([])
  }

  function PerInterface(host: Host): string -> Result<seq<string>, AddrFormatError>
  {
    i => AddressesOn(host, i)
  }

  /** `[i for i in interfaces if i not in ignored]` */
  function Without(interfaces: seq<string>, ignored: seq<string>): (r: seq<string>)
    ensures forall i :: i in r <==> i in interfaces && i !in ignored
  {
    if interfaces == [] then []
    else if interfaces[0] in ignored then Without(interfaces[1..], ignored)
    else [interfaces[0]] + Without(interfaces[1..], ignored)
  }

  /** The filter keeps order and repetitions: filtering a concatenation filters each part. */
  lemma {:induction false} WithoutAppend(a: seq<string>, b: seq<string>, ignored: seq<string>)
    ensures Without(a + b, ignored) == Without(a, ignored) + Without(b, ignored)
    decreases |a|
  {
    if a == [] {
      assert a + b == b;
    } else {
      assert (a + b)[0] == a[0];
      assert (a + b)[1..] == a[1..] + b;
      WithoutAppend(a[1..], b, ignored);
      if a[0] !in ignored {
        var x, y := Without(a[1..], ignored), Without(b, ignored);
        assert ([a[0]] + x) + y == [a[0]] + (x + y);
      }
    }
  }

  /** A single interface is kept exactly when it is not ignored. */
  lemma WithoutOne(i: string, ignored: seq<string>)
    ensures Without([i], ignored) == if i in ignored then [] else [i]
  {
    assert [i][1..] == [];
  }

  /** The interfaces that are looked at, in order: the given ones (all of the host's when None), less the ignored. */
  function Scanned(host: Host, interfaces: Option<seq<string>>, ignored: Option<seq<string>>): seq<string>
  {
    var all := if interfaces.None? then host.interfaces else interfaces.value;
    if ignored.None? then all else Without(all, ignored.value)
  }

  /** The list `get_interface_addresses` returns, or the exception it raises. */
  function InterfaceAddressesOf(host: Host, interfaces: Option<seq<string>>, ignored: Option<seq<string>>)
    : Result<seq<string>, AddrFormatError>
  {
    ConcatMap(PerInterface(host), Scanned(host, interfaces, ignored))
  }

  /** The inner loop of the generator: the usable addresses among one interface's IPv4 entries. */
  method UsableAmong(entries: seq<string>) returns (r: Result<seq<string>, AddrFormatError>)
    ensures r == ConcatMap(Classify, entries)
  {
    var out := [];
    for m := 0 to |entries|
      invariant ConcatMap(Classify, entries[..m]) == Ok(out)
    {
      assert entries[..m + 1][..m] == entries[..m];
      var addr := entries[m];
      var ip := Aton(addr);
      if ip.None? {
        ConcatMapStops(Classify, entries, m);
        return Err(AddrFormatError(addr));
      }
      if Usable(ip.value) {
        out := out + [addr];
      } else {
        assert out + [] == out;
      }
    }
    assert entries[..|entries|] == entries;
    return Ok(out);
  }

  /** `get_interface_addresses`: the generator's loop, collected into a list. */
  method InterfaceAddresses(host: Host, interfaces: Option<seq<string>>, ignored: Option<seq<string>>)
    returns (r: Result<seq<string>, AddrFormatError>)
    ensures r == InterfaceAddressesOf(host, interfaces, ignored)
  {
    var scanned := if interfaces.None? then host.interfaces else interfaces.value;
    if ignored.Some? {
      scanned := Without(scanned, ignored.value);
    }
    var out := [];
    for n := 0 to |scanned|
      invariant ConcatMap(PerInterface(host), scanned[..n]) == Ok(out)
    {
      assert scanned[..n + 1][..n] == scanned[..n];
      var lookup := host.ifaddresses(scanned[n]);
      if lookup.Raises? {
        assert PerInterface(host)(scanned[n]) == Ok([]);
        assert out + [] == out;
        continue;
      }
      if AF_INET in lookup.families {
        var found := UsableAmong(lookup.families[AF_INET]);
        assert PerInterface(host)(scanned[n]) == found;
        if found.Err? {
          ConcatMapStops(PerInterface(host), scanned, n);
          return found;
        }
        out := out + found.value;
      } else {
        assert PerInterface(host)(scanned[n]) == Ok([]);
        assert out + [] == out;
      }
    }
    assert scanned[..|scanned|] == scanned;
    return Ok(out);
  }

  /** Every address returned parses, and is neither loopback nor link-local. */
  lemma OnlyUsableAddresses(host: Host, interfaces: Option<seq<string>>, ignored: Option<seq<string>>, addr: string)
    requires InterfaceAddressesOf(host, interfaces, ignored).Ok?
    requires addr in InterfaceAddressesOf(host, interfaces, ignored).value
    ensures Aton(addr).Some? && !IsLoopback(Aton(addr).value) && !IsLinkLocal(Aton(addr).value)
  {
    var scanned := Scanned(host, interfaces, ignored);
    ConcatMapMember(PerInterface(host), scanned, addr);
    var k :| 0 <= k < |scanned| && AddressesOn(host, scanned[k]).Ok? && addr in AddressesOn(host, scanned[k]).value;
    var entries := host.ifaddresses(scanned[k]).families[AF_INET];
    ConcatMapMember(Classify, entries, addr);
  }

  /** `addr` is among the IPv4 addresses `netifaces` reports for interface `i`. */
  predicate BoundTo(host: Host, i: string, addr: string)
  {
    host.ifaddresses(i).Found? && AF_INET in host.ifaddresses(i).families
    && addr in host.ifaddresses(i).families[AF_INET]
  }

  /**
   * Every address returned is bound, for IPv4, to an interface that was asked
   * for, is not ignored, and whose lookup did not raise.
   */
  lemma AddressesComeFromScannedInterfaces(host: Host, interfaces: Option<seq<string>>, ignored: Option<seq<string>>,
    addr: string)
    requires InterfaceAddressesOf(host, interfaces, ignored).Ok?
    requires addr in InterfaceAddressesOf(host, interfaces, ignored).value
    ensures exists i :: i in (if interfaces.None? then host.interfaces else interfaces.value)
                        && (ignored.Some? ==> i !in ignored.value)
                        && BoundTo(host, i, addr)
  {
    var i := BoundInterface(host, Scanned(host, interfaces, ignored), addr);
    assert i in Scanned(host, interfaces, ignored);
  }

  /**
   * Nothing usable is missed: an address bound, for IPv4, to an interface that
   * is asked for, is not ignored and does not raise, is in a successful result
   * exactly when it is neither loopback nor link-local.
   */
  lemma BoundAddressesReturned(host: Host, interfaces: Option<seq<string>>, ignored: Option<seq<string>>,
    i: string, addr: string)
    requires InterfaceAddressesOf(host, interfaces, ignored).Ok?
    requires i in (if interfaces.None? then host.interfaces else interfaces.value)
    requires ignored.Some? ==> i !in ignored.value
    requires BoundTo(host, i, addr)
    ensures Aton(addr).Some?
    ensures addr in InterfaceAddressesOf(host, interfaces, ignored).value <==> Usable(Aton(addr).value)
  {
    var scanned := Scanned(host, interfaces, ignored);
    assert i in scanned;
    var k :| 0 <= k < |scanned| && scanned[k] == i;
    ConcatMapIncludes(PerInterface(host), scanned, k);
    var entries := host.ifaddresses(i).families[AF_INET];
    assert PerInterface(host)(i) == ConcatMap(Classify, entries);
    var m :| 0 <= m < |entries| && entries[m] == addr;
    ConcatMapIncludes(Classify, entries, m);
    if Usable(Aton(addr).value) {
      assert addr in Classify(entries[m]).value;
    } else if addr in InterfaceAddressesOf(host, interfaces, ignored).value {
      OnlyUsableAddresses(host, interfaces, ignored, addr);
    }
  }

  /** An interface of `scanned` that `addr` is bound to, when `addr` is in the output for `scanned`. */
  lemma BoundInterface(host: Host, scanned: seq<string>, addr: string) returns (i: string)
    requires ConcatMap(PerInterface(host), scanned).Ok? && addr in ConcatMap(PerInterface(host), scanned).value
    ensures i in scanned && BoundTo(host, i, addr)
  {
    ConcatMapMember(PerInterface(host), scanned, addr);
    var k :| 0 <= k < |scanned| && PerInterface(host)(scanned[k]).Ok? && addr in PerInterface(host)(scanned[k]).value;
    i := scanned[k];
    var entries := host.ifaddresses(i).families[AF_INET];
    ConcatMapMember(Classify, entries, addr);
  }

  /** An interface whose lookup raises is skipped: the result is as if it were not in the list, and the scan goes on. */
  lemma RaisingInterfaceSkipped(host: Host, before: seq<string>, i: string, after: seq<string>)
    requires host.ifaddresses(i).Raises?
    ensures ConcatMap(PerInterface(host), before + [i] + after) == ConcatMap(PerInterface(host), before + after)
  {
    var f := PerInterface(host);
    ConcatMapAppend(f, before + [i], after);
    ConcatMapAppend(f, before, [i]);
    ConcatMapAppend(f, before, after);
    assert ConcatMap(f, [i]) == Ok([]) by {
      assert [i][..0] == [];
      assert f(i) == Ok([]);
      var none: seq<string> := [];
      assert none + none == none;
    }
    if ConcatMap(f, before).Ok? {
      assert ConcatMap(f, before).value + [] == ConcatMap(f, before).value;
    }
  }

  /** The output lists the addresses interface by interface, in the order the interfaces are scanned. */
  lemma InterfaceOrder(host: Host, first: seq<string>, rest: seq<string>)
    ensures ConcatMap(PerInterface(host), first + rest)
      == Then(ConcatMap(PerInterface(host), first), ConcatMap(PerInterface(host), rest))
  {
    ConcatMapAppend(PerInterface(host), first, rest);
  }
}
