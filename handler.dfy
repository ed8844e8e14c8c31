/**
 * `ZeroConfHandler`: the facade that owns the engine, the default name and
 * port, and the registration ledger, a `defaultdict(list)` from
 * `(service type, port)` to the records registered under that key.
 */
module Handler {
  import opened Wrappers
  import opened Text
  import opened Formatting
  import opened Inet
  import opened Addresses
  import opened Engine

  /** The port used when neither the constructor nor a call names one. */
  const DefaultPort := 8080

  type Key = (string, int)

  type Ledger = map<Key, seq<ServiceInfo>>

  /** `registrations[key].append(info)` on a `defaultdict(list)`. */
  function Append(ledger: Ledger, key: Key, info: ServiceInfo): (r: Ledger)
    ensures r.Keys == ledger.Keys + {key}
    ensures r[key] == (if key in ledger then ledger[key] else []) + [info]
    ensures forall k :: k in ledger && k != key ==> r[k] == ledger[k]
  {
    ledger[key := (if key in ledger then ledger[key] else []) + [info]]
  }

  /** Python's `name or default`: a missing or empty name falls back. */
  function NameOr(name: Option<string>, default: string): (r: string)
    ensures r == default <== name.None? || name == Some("")
    ensures name.Some? && name.value != "" ==> r == name.value
  {
    if name.None? || name.value == "" then default else name.value
  }

  /** Python's `port or default`: a missing port or port 0 falls back. */
  function PortOr(port: Option<int>, default: int): (r: int)
    ensures r == default <== port.None? || port == Some(0)
    ensures port.Some? && port.value != 0 ==> r == port.value
  {
    if port.None? || port.value == 0 then default else port.value
  }

  /** The arguments of `zeroconf_register`; None stands for an argument left out. */
  datatype RegisterArgs = RegisterArgs(
    serviceType: string,
    name: Option<string>,
    port: Option<int>,
    txtRecord: Option<PyDict>,
    serverUrl: Option<string>,
    address: Option<string>)

  /** The exceptions that leave `zeroconf_register`: those raised before its `try`. */
  datatype RegisterError =
    | EnumerationFailed(cause: AddrFormatError)
    | InetAtonFailed(addr: string)

  function PackOne(addr: string): (r: Result<seq<Packed>, RegisterError>)
    ensures r.Err? <==> Aton(addr).None?
    ensures r.Ok? ==> r.value == [Aton(addr).value]
  {
    match Aton(addr)
    case None => Err(InetAtonFailed(addr))
    case Some(p) => Ok([p])
  }

  /** `list(map(socket.inet_aton, addresses))`: the first address that does not parse raises. */
  function PackAll(addrs: seq<string>): Result<seq<Packed>, RegisterError>
  {
    ConcatMap(PackOne, addrs)
  }

  /** The address texts to advertise: the given one, or else every usable interface address. */
  function AddressTexts(host: Host, address: Option<string>): Result<seq<string>, RegisterError>
  {
    if address.Some? && address.value != "" then Ok([address.value])
    else match InterfaceAddressesOf(host, None, None)
      case Err(e) => Err(EnumerationFailed(e))
      case Ok(addrs) => Ok(addrs)
  }

  /** The server name: `<hostname>.local.` unless a server URL is given. */
  function ServerNameOf(host: Host, serverUrl: Option<string>): string
  {
    if serverUrl.None? || serverUrl.value == "" then host.hostname + ".local." else FormatServerName(serverUrl.value)
  }

  /** The record `zeroconf_register` hands to the engine, or the exception it raises before that. */
  function RecordFor(host: Host, defaultName: string, defaultPort: int, args: RegisterArgs)
    : Result<ServiceInfo, RegisterError>
  {
    var serviceType := FormatServiceType(args.serviceType);
    match AddressTexts(host, args.address)
    case Err(e) => Err(e)
    case Ok(texts) =>
      match PackAll(texts)
      case Err(e) => Err(e)
      case Ok(packed) =>
        Ok(ServiceInfo(
          serviceType,
          FormatName(NameOr(args.name, defaultName), serviceType),
          packed,
          PortOr(args.port, defaultPort),
          ServerNameOf(host, args.serverUrl),
          TxtOf(args.txtRecord)))
  }

  /** The ledger key a record is filed under. */
  function KeyOf(info: ServiceInfo): Key
  {
    (info.serviceType, info.port)
  }

  /** Every bucket is non-empty and holds only records whose own key is the bucket's key. */
  predicate WellFiled(ledger: Ledger)
  {
    forall k :: k in ledger ==> ledger[k] != [] && forall i :: 0 <= i < |ledger[k]| ==> KeyOf(ledger[k][i]) == k
  }

  /** Filing a record under its own key keeps the ledger well filed. */
  lemma AppendWellFiled(ledger: Ledger, info: ServiceInfo)
    requires WellFiled(ledger)
    ensures WellFiled(Append(ledger, KeyOf(info), info))
  {
    var r := Append(ledger, KeyOf(info), info);
    forall k | k in r ensures r[k] != [] && forall i :: 0 <= i < |r[k]| ==> KeyOf(r[k][i]) == k {
      if k == KeyOf(info) {
        var old_ := if k in ledger then ledger[k] else [];
        assert r[k] == old_ + [info];
        forall i | 0 <= i < |r[k]| ensures KeyOf(r[k][i]) == k {
          if i < |old_| {
            assert r[k][i] == ledger[k][i];
          }
        }
      }
    }
  }

  /** Registering twice under one key leaves both records in that bucket, in call order. */
  lemma SameKeyAccumulates(ledger: Ledger, first: ServiceInfo, second: ServiceInfo)
    requires KeyOf(first) == KeyOf(second)
    ensures var k := KeyOf(first);
      Append(Append(ledger, k, first), k, second)[k] == (if k in ledger then ledger[k] else []) + [first, second]
  {
    var k := KeyOf(first);
    var before := if k in ledger then ledger[k] else [];
    assert (before + [first]) + [second] == before + [first, second];
  }

  /** Popping a key that two registrations introduced restores the ledger. */
  lemma PopUndoesAppends(ledger: Ledger, k: Key, first: ServiceInfo, second: ServiceInfo)
    requires k !in ledger
    ensures Append(Append(ledger, k, first), k, second) - {k} == ledger
  {
    var both := Append(Append(ledger, k, first), k, second);
    assert (both - {k}).Keys == ledger.Keys;
    forall j | j in ledger
      ensures (both - {k})[j] == ledger[j]
    {
    }
  }

  /** The ledger is well filed and every record in it was handed to the engine, as logged in `calls`. */
  ghost predicate Filed(ledger: Ledger, calls: seq<EngineCall>)
  {
    && WellFiled(ledger)
    && forall k, i :: k in ledger && 0 <= i < |ledger[k]| ==> RegisterService(ledger[k][i], true) in calls
  }

  /** A registration, accepted or not, keeps the ledger filed against the grown log. */
  lemma RegisterKeepsFiled(ledger: Ledger, calls: seq<EngineCall>, info: ServiceInfo, accepted: bool)
    requires Filed(ledger, calls)
    ensures Filed(if accepted then Append(ledger, KeyOf(info), info) else ledger, calls + [RegisterService(info, true)])
  {
    var calls' := calls + [RegisterService(info, true)];
    var ledger' := if accepted then Append(ledger, KeyOf(info), info) else ledger;
    if accepted {
      AppendWellFiled(ledger, info);
    }
    forall k, i | k in ledger' && 0 <= i < |ledger'[k]|
      ensures RegisterService(ledger'[k][i], true) in calls'
    {
      if accepted && k == KeyOf(info) && i == |ledger'[k]| - 1 {
        assert calls'[|calls|] == RegisterService(info, true);
      } else {
        assert ledger'[k][i] == ledger[k][i];
        assert RegisterService(ledger[k][i], true) in calls;
      }
    }
  }

  /** Popping a bucket and logging withdrawals keeps the ledger filed. */
  lemma UnregisterKeepsFiled(ledger: Ledger, calls: seq<EngineCall>, key: Key, withdrawn: seq<EngineCall>)
    requires Filed(ledger, calls)
    ensures Filed(ledger - {key}, calls + withdrawn)
  {
    var ledger' := ledger - {key};
    forall k, i | k in ledger' && 0 <= i < |ledger'[k]|
      ensures RegisterService(ledger'[k][i], true) in calls + withdrawn
    {
      assert RegisterService(ledger[k][i], true) in calls;
    }
  }

  /** How many withdrawals `zeroconf_unregister` issues for a bucket of `n` records when the one at `failsAt` raises. */
  function Attempted(n: nat, failsAt: Option<nat>): (k: nat)
    ensures k <= n
    ensures failsAt.Some? && failsAt.value < n ==> k == failsAt.value + 1
    ensures (failsAt.None? || failsAt.value >= n) ==> k == n
  {
    if failsAt.Some? && failsAt.value < n then failsAt.value + 1 else n
  }

  /**
   * What a registered record holds: the formatted type, the fallback port,
   * an instance name the browse listener turns back into the fallback name,
   * a dot-terminated server name and the converted TXT record. Its ledger
   * key is the formatted type with the fallback port.
   */
  lemma RecordShape(host: Host, defaultName: string, defaultPort: int, args: RegisterArgs)
    requires RecordFor(host, defaultName, defaultPort, args).Ok?
    ensures var info := RecordFor(host, defaultName, defaultPort, args).value;
      && info.serviceType == FormatServiceType(args.serviceType)
      && EndsWith(info.serviceType, "local.")
      && info.port == PortOr(args.port, defaultPort)
      && KeyOf(info) == (FormatServiceType(args.serviceType), PortOr(args.port, defaultPort))
      && info.name == FormatName(NameOr(args.name, defaultName), args.serviceType)
      && DisplayName(info.name, info.serviceType) == NameOr(args.name, defaultName)
      && EndsWith(info.server, ".")
      && info.properties == TxtOf(args.txtRecord)
  {
    var info := RecordFor(host, defaultName, defaultPort, args).value;
    FormatServiceTypeIdempotent(args.serviceType);
    DisplayNameOfFormatName(NameOr(args.name, defaultName), args.serviceType);
    if args.serverUrl.None? || args.serverUrl.value == "" {
      var s := host.hostname + ".local.";
      assert s[|s| - 1..] == ".";
    }
  }

  /** Packing succeeds on addresses that all parse, keeping their order. */
  lemma PackAllParsed(addrs: seq<string>)
    requires forall i :: 0 <= i < |addrs| ==> Aton(addrs[i]).Some?
    ensures PackAll(addrs).Ok?
    ensures |PackAll(addrs).value| == |addrs|
    ensures forall i :: 0 <= i < |addrs| ==> Some(PackAll(addrs).value[i]) == Aton(addrs[i])
  {
    forall i | 0 <= i < |addrs|
      ensures PackOne(addrs[i]).Ok? && PackOne(addrs[i]).value == [Aton(addrs[i]).value]
    {
    }
    ConcatMapSingletons(PackOne, addrs);
  }

  /**
   * Without an explicit address the interface addresses are used; they all
   * parse, so registration can then only fail in the enumeration itself; the
   * record advertises exactly the enumerated addresses, in order, and none of
   * them is loopback or link-local.
   */
  lemma EnumeratedAddressesPack(host: Host, defaultName: string, defaultPort: int, args: RegisterArgs)
    requires args.address.None? || args.address == Some("")
    ensures InterfaceAddressesOf(host, None, None).Err? ==>
      RecordFor(host, defaultName, defaultPort, args) == Err(EnumerationFailed(InterfaceAddressesOf(host, None, None).error))
    ensures InterfaceAddressesOf(host, None, None).Ok? ==>
      && RecordFor(host, defaultName, defaultPort, args).Ok?
      && |RecordFor(host, defaultName, defaultPort, args).value.addresses| == |InterfaceAddressesOf(host, None, None).value|
      && (forall i :: 0 <= i < |InterfaceAddressesOf(host, None, None).value| ==>
            Ntoa(RecordFor(host, defaultName, defaultPort, args).value.addresses[i])
              == InterfaceAddressesOf(host, None, None).value[i])
      && forall p :: p in RecordFor(host, defaultName, defaultPort, args).value.addresses ==> !IsLoopback(p) && !IsLinkLocal(p)
  {
    var found := InterfaceAddressesOf(host, None, None);
    if found.Ok? {
      var addrs := found.value;
      forall a | a in addrs ensures Aton(a).Some? && !IsLoopback(Aton(a).value) && !IsLinkLocal(Aton(a).value) {
        OnlyUsableAddresses(host, None, None, a);
      }
      PackAllParsed(addrs);
      var packed := PackAll(addrs).value;
      assert AddressTexts(host, args.address) == Ok(addrs);
      forall p | p in packed ensures !IsLoopback(p) && !IsLinkLocal(p) {
        var i :| 0 <= i < |packed| && packed[i] == p;
        assert Some(p) == Aton(addrs[i]);
      }
      forall i | 0 <= i < |addrs| ensures Ntoa(packed[i]) == addrs[i] {
        NtoaAton(addrs[i]);
      }
    }
  }

  /**
   * With an explicit address the host's interfaces play no part: the record
   * is the same whatever they are, and it advertises exactly that address
   * (or `inet_aton` raises for it).
   */
  lemma ExplicitAddressSkipsEnumeration(host: Host, other: Host, defaultName: string, defaultPort: int,
    args: RegisterArgs)
    requires args.address.Some? && args.address.value != ""
    requires other.hostname == host.hostname
    ensures RecordFor(host, defaultName, defaultPort, args) == RecordFor(other, defaultName, defaultPort, args)
    ensures Aton(args.address.value).None? ==>
      RecordFor(host, defaultName, defaultPort, args) == Err(InetAtonFailed(args.address.value))
    ensures Aton(args.address.value).Some? ==>
      && RecordFor(host, defaultName, defaultPort, args).Ok?
      && RecordFor(host, defaultName, defaultPort, args).value.addresses == [Aton(args.address.value).value]
  {
    var a := args.address.value;
    assert [a][..0] == [];
    assert ConcatMap(PackOne, [a][..0]) == Ok([]);
    assert PackAll([a]) == Then(ConcatMap(PackOne, [a][..0]), PackOne(a));
    if Aton(a).Some? {
      assert PackAll([a]) == Ok([] + [Aton(a).value]);
    }
  }

  class ZeroConfHandler {
    const host: Host
    var name: string
    var port: int
    var registrations: Ledger
    /** Every call this handler made into the engine, oldest first. */
    ghost var engineCalls: seq<EngineCall>

    /** The ledger is well filed, and every record in it was handed to the engine. */
    ghost predicate Valid()
      reads this
    {
      Filed(registrations, engineCalls)
    }

    /** The handler on an engine opened with `engineAddresses`. */
    constructor (host: Host, name: Option<string>, port: Option<int>, engineAddresses: seq<string>)
      ensures this.host == host
      ensures this.name == NameOr(name, "Server on " + host.hostname)
      ensures this.port == PortOr(port, DefaultPort)
      ensures registrations == map[]
      ensures engineCalls == [Open(engineAddresses)]
      ensures Valid()
    {
      this.host := host;
      this.name := NameOr(name, "Server on " + host.hostname);
      this.port := PortOr(port, DefaultPort);
      registrations := map[];
      engineCalls := [Open(engineAddresses)];
    }

    /** `ZeroConfHandler(name, port)`: opens the engine on the usable interface addresses, which may raise. */
    static method Create(host: Host, name: Option<string>, port: Option<int>)
      returns (r: Result<ZeroConfHandler, AddrFormatError>)
      ensures InterfaceAddressesOf(host, None, None).Err? ==> r == Err(InterfaceAddressesOf(host, None, None).error)
      ensures InterfaceAddressesOf(host, None, None).Ok? ==> r.Ok?
      ensures r.Ok? ==>
        && fresh(r.value)
        && r.value.host == host
        && r.value.name == NameOr(name, "Server on " + host.hostname)
        && r.value.port == PortOr(port, DefaultPort)
        && r.value.registrations == map[]
        && r.value.engineCalls == [Open(InterfaceAddressesOf(host, None, None).value)]
        && r.value.Valid()
    {
      var addrs := InterfaceAddresses(host, None, None);
      if addrs.Err? {
        return Err(addrs.error);
      }
      var h := new ZeroConfHandler(host, name, port, addrs.value);
      return Ok(h);
    }

    /**
     * The first half of `zeroconf_register`, before its `try`: defaults,
     * formatting, the address list and its conversion to packed form.
     */
    method BuildRecord(args: RegisterArgs) returns (rec: Result<ServiceInfo, RegisterError>)
      ensures rec == RecordFor(host, name, port, args)
    {
      var n := NameOr(args.name, name);
      var p := PortOr(args.port, port);
      var serviceType := FormatServiceType(args.serviceType);
      var fullName := FormatName(n, serviceType);
      var txt := FormatTxt(args.txtRecord);

      var texts: seq<string>;
      if args.address.Some? && args.address.value != "" {
        texts := [args.address.value];
      } else {
        var found := InterfaceAddresses(host, None, None);
        if found.Err? {
          return Err(EnumerationFailed(found.error));
        }
        texts := found.value;
      }
      assert AddressTexts(host, args.address) == Ok(texts);
      var packed := PackAll(texts);
      if packed.Err? {
        return Err(packed.error);
      }
      var server := if args.serverUrl.None? || args.serverUrl.value == "" then host.hostname + ".local."
                    else FormatServerName(args.serverUrl.value);
      return Ok(ServiceInfo(serviceType, fullName, packed.value, p, server, txt));
    }

    /**
     * `zeroconf_register`. Errors before the `try` propagate and leave
     * everything as it was. Otherwise the record goes to the engine; when
     * the engine accepts it (`engineAccepts`) it is appended to the bucket of
     * its key `(service type, port)`; when the engine raises, the exception
     * is swallowed and the ledger is left alone.
     */
    method Register(args: RegisterArgs, engineAccepts: bool) returns (r: Result<(), RegisterError>)
      requires Valid()
      modifies this`registrations, this`engineCalls
      ensures Valid()
      ensures var rec := old(RecordFor(host, name, port, args));
        rec.Err? ==>
          && r == Err(rec.error)
          && registrations == old(registrations)
          && engineCalls == old(engineCalls)
      ensures var rec := old(RecordFor(host, name, port, args));
        rec.Ok? ==>
          && r == Ok(())
          && engineCalls == old(engineCalls) + [RegisterService(rec.value, true)]
          && registrations == if engineAccepts then Append(old(registrations), KeyOf(rec.value), rec.value)
                              else old(registrations)
    {
      var rec := BuildRecord(args);
      if rec.Err? {
        return Err(rec.error);
      }
      var info := rec.value;
      var key := (info.serviceType, info.port);
      assert key == KeyOf(info);
      RegisterKeepsFiled(registrations, engineCalls, info, engineAccepts);
      engineCalls := engineCalls + [RegisterService(info, true)];
      if engineAccepts {
        registrations := Append(registrations, key, info);
      }
      r := Ok(());
    }

    /**
     * `zeroconf_unregister`. An unknown key changes nothing and calls nothing.
     * A known key's bucket is popped first; then its records are withdrawn in
     * order until one withdrawal raises (`failsAt`), after which the rest are
     * not attempted and the exception is swallowed. A bucket is never empty,
     * so a known key always withdraws at least its first record.
     */
    method Unregister(serviceType: string, port: Option<int>, failsAt: Option<nat>)
      requires Valid()
      modifies this`registrations, this`engineCalls
      ensures Valid()
      ensures var key := (FormatServiceType(serviceType), PortOr(port, old(this.port)));
        key !in old(registrations) ==>
          && registrations == old(registrations)
          && engineCalls == old(engineCalls)
      ensures var key := (FormatServiceType(serviceType), PortOr(port, old(this.port)));
        key in old(registrations) ==>
          && registrations == old(registrations) - {key}
          && engineCalls == old(engineCalls)
               + Withdrawals(old(registrations)[key][..Attempted(|old(registrations)[key]|, failsAt)])
      ensures var key := (FormatServiceType(serviceType), PortOr(port, old(this.port)));
        key in old(registrations) ==>
          |engineCalls| > |old(engineCalls)| && engineCalls[|old(engineCalls)|] == UnregisterService(old(registrations)[key][0])
    {
      var p := PortOr(port, this.port);
      var t := FormatServiceType(serviceType);
      var key := (t, p);
      if key !in registrations {
        return;
      }
      var infos := registrations[key];
      assert infos != [];
      registrations := registrations - {key};

      var i := 0;
      var raised := false;
      while i < |infos| && !raised
        invariant 0 <= i <= |infos|
        invariant registrations == old(registrations) - {key}
        invariant engineCalls == old(engineCalls) + Withdrawals(infos[..i])
        invariant raised ==> i >= 1 && failsAt == Some(i - 1)
        invariant !raised ==> forall j :: 0 <= j < i ==> failsAt != Some(j)
      {
        engineCalls := engineCalls + [UnregisterService(infos[i])];
        assert infos[..i + 1][..i] == infos[..i];
        raised := failsAt == Some(i);
        i := i + 1;
      }
      assert i == Attempted(|infos|, failsAt) && i >= 1;
      assert engineCalls[|old(engineCalls)|] == Withdrawals(infos[..i])[0] == UnregisterService(infos[0]);
      UnregisterKeepsFiled(old(registrations), old(engineCalls), key, Withdrawals(infos[..i]));
    }
  }
}
