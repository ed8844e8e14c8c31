/**
 * The boundary to the `zeroconf` library: the records the handler hands over
 * and the calls it makes. The library itself is not modelled; a handler keeps
 * a log of the calls it made, in order.
 */
module Engine {
  import opened Inet
  import opened Formatting

  /** `zeroconf.ServiceInfo`, with the fields the handler sets and the browse listener reads. */
  datatype ServiceInfo = ServiceInfo(
    serviceType: string,
    name: string,
    addresses: seq<Packed>,
    port: int,
    server: string,
    properties: Txt)

  /** A call into the engine: opening it on some addresses, registering a record, withdrawing one. */
  datatype EngineCall =
    | Open(interfaces: seq<string>)
    | RegisterService(info: ServiceInfo, allowNameChange: bool)
    | UnregisterService(info: ServiceInfo)

  /** One withdrawal per record, in the records' order. */
  function Withdrawals(infos: seq<ServiceInfo>): (calls: seq<EngineCall>)
    ensures |calls| == |infos|
    ensures forall i :: 0 <= i < |infos| ==> calls[i] == UnregisterService(infos[i])
  {
    if infos == [] then [] else Withdrawals(infos[..|infos| - 1]) + [UnregisterService(infos[|infos| - 1])]
  }
}
