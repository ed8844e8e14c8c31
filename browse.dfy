/**
 * `zeroconf_browse`: the argument check, and how the listener turns resolved
 * instances into results. Each discovered instance is resolved by the engine
 * (`get_service_info`), which gives a record or nothing (on timeout); the
 * resolutions of one browse session arrive in discovery order.
 */
module Browse {
  import opened Wrappers
  import opened Formatting
  import opened Inet
  import opened Engine
  import opened Handler

  /** One entry of the result list: `{"name", "host", "port", "txt_record"}`. */
  datatype DiscoveryResult = DiscoveryResult(name: string, host: string, port: int, txtRecord: Txt)

  /** `ValueError("Non-blocking mode but no callback given")`. */
  datatype BrowseError = NoCallbackInNonBlockingMode

  /** What a browse call produces: the type browsed for, what the call returns, and what the callback receives. */
  datatype BrowseOutcome = BrowseOutcome(
    browsedType: string,
    returned: seq<DiscoveryResult>,
    callbackArgument: Option<seq<DiscoveryResult>>)

  /** `to_result`: the name with `.<browsed type>` cut off, the address as text, the port and the TXT record. */
  function ToResult(info: ServiceInfo, browsedType: string, address: Packed): (r: DiscoveryResult)
    ensures r.port == info.port && r.txtRecord == info.properties
    ensures r.host == Ntoa(address)
    ensures r.name <= info.name
  {
    DiscoveryResult(DisplayName(info.name, browsedType), Ntoa(address), info.port, info.properties)
  }

  /**
   * A result's name is the instance name with its last `len(type) + 1`
   * characters cut off (nothing when the name is not that long); for a name
   * that ends in `.<browsed type>`, that is the part in front of it.
   */
  lemma ResultName(info: ServiceInfo, browsedType: string, address: Packed)
    ensures var n := ToResult(info, browsedType, address).name;
      |n| == (if |browsedType| + 1 > |info.name| then 0 else |info.name| - |browsedType| - 1)
      && (EndsWith(info.name, "." + browsedType) ==> n + "." + browsedType == info.name)
  {
    var n := ToResult(info, browsedType, address).name;
    if EndsWith(info.name, "." + browsedType) {
      var cut := |info.name| - |browsedType| - 1;
      assert n == info.name[..cut];
      assert info.name[cut..] == "." + browsedType;
      assert info.name == info.name[..cut] + info.name[cut..];
    }
  }

  /** A result's host text parses back to the packed address it was made from. */
  lemma ResultHostParsesBack(info: ServiceInfo, browsedType: string, address: Packed)
    ensures Aton(ToResult(info, browsedType, address).host) == Some(address)
  {
    AtonNtoa(address);
  }

  /** The results one resolved instance contributes: one per address, in address order. */
  function ResultsFor(info: ServiceInfo, browsedType: string): (r: seq<DiscoveryResult>)
    ensures |r| == |info.addresses|
    ensures forall k :: 0 <= k < |r| ==> r[k] == ToResult(info, browsedType, info.addresses[k])
    decreases |info.addresses|
  {
    if info.addresses == [] then []
    else
      var init := info.(addresses := info.addresses[..|info.addresses| - 1]);
      ResultsFor(init, browsedType) + [ToResult(info, browsedType, info.addresses[|info.addresses| - 1])]
  }

  /** How many addresses the resolved instances have in all. */
  function AddressCount(resolutions: seq<Option<ServiceInfo>>): nat
  {
    if resolutions == [] then 0
    else
      var last := resolutions[|resolutions| - 1];
      AddressCount(resolutions[..|resolutions| - 1]) + (if last.Some? then |last.value.addresses| else 0)
  }

  /** The results one resolution contributes: those of its record, or none when it timed out. */
  function Contribution(resolved: Option<ServiceInfo>, browsedType: string): seq<DiscoveryResult>
  {
    if resolved.Some? then ResultsFor(resolved.value, browsedType) else []
  }

  /** The shared result list after the listener has handled every resolution, in order. */
  function Accumulated(resolutions: seq<Option<ServiceInfo>>, browsedType: string): (r: seq<DiscoveryResult>)
    ensures |r| == AddressCount(resolutions)
  {
    if resolutions == [] then []
    else
      var last := resolutions[|resolutions| - 1];
      Accumulated(resolutions[..|resolutions| - 1], browsedType)
        + Contribution(last, browsedType)
  }

  /** The listener's `add_service` for one discovered instance: a result per address of its resolution, if any. */
  method AddService(results: seq<DiscoveryResult>, resolved: Option<ServiceInfo>, browsedType: string)
    returns (out: seq<DiscoveryResult>)
    ensures out == results + Contribution(resolved, browsedType)
  {
    out := results;
    if resolved.None? {
      assert results + [] == results;
      return;
    }
    var info := resolved.value;
    ghost var all := ResultsFor(info, browsedType);
    for k := 0 to |info.addresses|
      invariant out == results + all[..k]
    {
      assert all[..k + 1] == all[..k] + [ToResult(info, browsedType, info.addresses[k])];
      out := out + [ToResult(info, browsedType, info.addresses[k])];
    }
    assert all[..|info.addresses|] == all;
  }

  /** The listener over a whole browse session: `add_service` once per discovered instance, in order. */
  method Listen(resolutions: seq<Option<ServiceInfo>>, browsedType: string) returns (result: seq<DiscoveryResult>)
    ensures result == Accumulated(resolutions, browsedType)
  {
    result := [];
    for n := 0 to |resolutions|
      invariant result == Accumulated(resolutions[..n], browsedType)
    {
      assert resolutions[..n + 1][..n] == resolutions[..n];
      result := AddService(result, resolutions[n], browsedType);
    }
    assert resolutions[..|resolutions|] == resolutions;
  }

  /**
   * `zeroconf_browse`. Non-blocking without a callback raises before any
   * browsing starts. Otherwise the formatted type is browsed; a blocking
   * call returns the accumulated results and a non-blocking one returns the
   * empty list, and a callback, when there is one, receives the results once.
   */
  method ZeroconfBrowse(serviceType: string, block: bool, hasCallback: bool,
    resolutions: seq<Option<ServiceInfo>>)
    returns (r: Result<BrowseOutcome, BrowseError>)
    ensures r.Err? <==> !block && !hasCallback
    ensures r.Ok? ==>
      && r.value.browsedType == FormatServiceType(serviceType)
      && r.value.returned == (if block then Accumulated(resolutions, FormatServiceType(serviceType)) else [])
      && r.value.callbackArgument ==
           (if hasCallback then Some(Accumulated(resolutions, FormatServiceType(serviceType))) else None)
  {
    if !block && !hasCallback {
      return Err(NoCallbackInNonBlockingMode);
    }
    var browsedType := FormatServiceType(serviceType);
    var result := Listen(resolutions, browsedType);
    var callbackArgument := if hasCallback then Some(result) else None;
    if block {
      return Ok(BrowseOutcome(browsedType, result, callbackArgument));
    } else {
      return Ok(BrowseOutcome(browsedType, [], callbackArgument));
    }
  }

  lemma AppendAssociative<T>(a: seq<T>, b: seq<T>, c: seq<T>)
    ensures (a + b) + c == a + (b + c)
  {
  }

  /** One more resolution adds its contribution at the end. */
  lemma AccumulatedSnoc(xs: seq<Option<ServiceInfo>>, x: Option<ServiceInfo>, browsedType: string)
    ensures Accumulated(xs + [x], browsedType) == Accumulated(xs, browsedType) + Contribution(x, browsedType)
  {
    assert (xs + [x])[..|xs|] == xs;
  }

  /** Results come in discovery order: those of earlier resolutions precede those of later ones. */
  lemma {:induction false} AccumulatedAppend(first: seq<Option<ServiceInfo>>, rest: seq<Option<ServiceInfo>>,
    browsedType: string)
    ensures Accumulated(first + rest, browsedType) == Accumulated(first, browsedType) + Accumulated(rest, browsedType)
    decreases |rest|
  {
    if rest == [] {
      assert first + rest == first;
    } else {
      var rest', last := rest[..|rest| - 1], rest[|rest| - 1];
      assert rest == rest' + [last];
      assert first + rest == (first + rest') + [last];
      AccumulatedSnoc(first + rest', last, browsedType);
      AccumulatedSnoc(rest', last, browsedType);
      AccumulatedAppend(first, rest', browsedType);
      AppendAssociative(Accumulated(first, browsedType), Accumulated(rest', browsedType), Contribution(last, browsedType));
    }
  }

  /** An instance that did not resolve in time contributes nothing. */
  lemma UnresolvedIgnored(first: seq<Option<ServiceInfo>>, rest: seq<Option<ServiceInfo>>, browsedType: string)
    ensures Accumulated(first + [None] + rest, browsedType) == Accumulated(first + rest, browsedType)
  {
    AccumulatedAppend(first + [None], rest, browsedType);
    AccumulatedAppend(first, [None], browsedType);
    AccumulatedAppend(first, rest, browsedType);
    var gone: seq<Option<ServiceInfo>> := [None];
    assert gone[..0] == [];
    assert Accumulated(gone, browsedType) == [];
    assert Accumulated(first, browsedType) + [] == Accumulated(first, browsedType);
  }

  /**
   * A record registered by the handler, when resolved and browsed under its
   * own formatted type, gives one result per advertised address, each with the
   * name and port it was registered with, the host text parsing back to that
   * address, and the TXT record it was registered with.
   */
  lemma RegisteredRecordBrowsedBack(host: Addresses.Host, defaultName: string, defaultPort: int, args: RegisterArgs)
    requires RecordFor(host, defaultName, defaultPort, args).Ok?
    ensures var info := RecordFor(host, defaultName, defaultPort, args).value;
      var results := ResultsFor(info, FormatServiceType(args.serviceType));
      && |results| == |info.addresses|
      && forall k :: 0 <= k < |results| ==>
           && results[k].name == NameOr(args.name, defaultName)
           && results[k].port == PortOr(args.port, defaultPort)
           && Aton(results[k].host) == Some(info.addresses[k])
           && results[k].txtRecord == TxtOf(args.txtRecord)
  {
    RecordShape(host, defaultName, defaultPort, args);
    var info := RecordFor(host, defaultName, defaultPort, args).value;
    forall k | 0 <= k < |info.addresses|
      ensures Aton(ResultsFor(info, FormatServiceType(args.serviceType))[k].host) == Some(info.addresses[k])
    {
      ResultHostParsesBack(info, FormatServiceType(args.serviceType), info.addresses[k]);
    }
  }

  /** With an explicit address, every result's host is exactly the address text that was registered. */
  lemma ExplicitAddressBrowsedBack(host: Addresses.Host, defaultName: string, defaultPort: int, args: RegisterArgs)
    requires args.address.Some? && args.address.value != ""
    requires RecordFor(host, defaultName, defaultPort, args).Ok?
    ensures var info := RecordFor(host, defaultName, defaultPort, args).value;
      ResultsFor(info, FormatServiceType(args.serviceType))[0].host == args.address.value
  {
    ExplicitAddressSkipsEnumeration(host, host, defaultName, defaultPort, args);
    NtoaAton(args.address.value);
  }
}
