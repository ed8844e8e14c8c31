/**
 * The name and record formatters of the zero-conf handler: service types are
 * brought into the `<type>.local.` form, instance names are built as
 * `<name>.<type>`, server names get their trailing dot, and a metadata
 * dictionary becomes the bytes-to-bytes TXT record the engine advertises.
 */
module Formatting {
  import opened Wrappers
  import opened Text

  predicate EndsWith(s: string, suffix: string)
  {
    |suffix| <= |s| && s[|s| - |suffix|..] == suffix
  }

  // ------------------------------------------------------ names and types

  /**
   * `_format_zeroconf_service_type`: a "." is appended when missing, then
   * "local." when the result does not already end with it.
   */
  function FormatServiceType(serviceType: string): (r: string)
    ensures EndsWith(r, "local.")
    ensures serviceType <= r
    ensures EndsWith(serviceType, "local.") ==> r == serviceType
  {
    var dotted := if EndsWith(serviceType, ".") then serviceType else serviceType + ".";
    if EndsWith(dotted, "local.") then dotted else dotted + "local."
  }

  /** A type ending in "local" only lacks its final dot. */
  lemma FormatLocalType(serviceType: string)
    requires EndsWith(serviceType, "local")
    ensures FormatServiceType(serviceType) == serviceType + "."
  {
    var d := serviceType + ".";
    assert serviceType[|serviceType| - 1] == serviceType[|serviceType| - 5..][4] == 'l';
    assert !EndsWith(serviceType, ".");
    assert d[|d| - 6..] == serviceType[|serviceType| - 5..] + ".";
  }

  /** A type ending neither in "." nor in "local" gets the whole ".local." suffix. */
  lemma FormatBareType(serviceType: string)
    requires !EndsWith(serviceType, ".") && !EndsWith(serviceType, "local")
    ensures FormatServiceType(serviceType) == serviceType + ".local."
  {
    var d := serviceType + ".";
    if |d| >= 6 {
      assert d[|d| - 6..][..5] == serviceType[|serviceType| - 5..] != "local";
      assert "local."[..5] == "local";
    }
    assert !EndsWith(d, "local.");
    assert "." + "local." == ".local.";
    assert d + "local." == serviceType + ("." + "local.");
  }

  /** What exactly is appended, in each of the four situations an input can be in. */
  lemma FormatServiceTypeCases(serviceType: string)
    ensures EndsWith(serviceType, "local.") ==> FormatServiceType(serviceType) == serviceType
    ensures EndsWith(serviceType, "local") ==> FormatServiceType(serviceType) == serviceType + "."
    ensures EndsWith(serviceType, ".") && !EndsWith(serviceType, "local.") ==>
      FormatServiceType(serviceType) == serviceType + "local."
    ensures !EndsWith(serviceType, ".") && !EndsWith(serviceType, "local") ==>
      FormatServiceType(serviceType) == serviceType + ".local."
  {
    if EndsWith(serviceType, "local") {
      FormatLocalType(serviceType);
    } else if !EndsWith(serviceType, ".") {
      FormatBareType(serviceType);
    }
  }

  /** Formatting a type that is already formatted changes nothing. */
  lemma FormatServiceTypeIdempotent(serviceType: string)
    ensures FormatServiceType(FormatServiceType(serviceType)) == FormatServiceType(serviceType)
  {
  }

  /** `_format_zeroconf_name`: the fully qualified instance name `<name>.<type>`. */
  function FormatName(name: string, serviceType: string): (r: string)
    ensures |r| == |name| + 1 + |FormatServiceType(serviceType)|
    ensures r[..|name|] == name && r[|name|] == '.'
    ensures EndsWith(r, FormatServiceType(serviceType))
  {
    var t := FormatServiceType(serviceType);
    var r := name + "." + t;
    assert r[|r| - |t|..] == t;
    r
  }

  /** `_format_zeroconf_server_name`: a trailing dot is added when it is missing. */
  function FormatServerName(serverName: string): (r: string)
    ensures EndsWith(r, ".")
    ensures serverName <= r && |r| <= |serverName| + 1
    ensures EndsWith(serverName, ".") ==> r == serverName
  {
    if EndsWith(serverName, ".") then serverName else serverName + "."
  }

  /** Formatting a server name twice is formatting it once. */
  lemma FormatServerNameIdempotent(serverName: string)
    ensures FormatServerName(FormatServerName(serverName)) == FormatServerName(serverName)
  {
  }

  /** Python's `s[:-k]`: everything but the last `k` characters, empty when `s` is shorter (and when `k` is 0). */
  function SliceDropLast(s: string, k: nat): (r: string)
    ensures r <= s
    ensures |r| == if k == 0 || k > |s| then 0 else |s| - k
  {
    if k == 0 || k > |s| then [] else s[..|s| - k]
  }

  /** The browse listener's display name: the instance name minus `.<browsed type>`. */
  function DisplayName(instanceName: string, browsedType: string): string
  {
    SliceDropLast(instanceName, |browsedType| + 1)
  }

  /** Cutting `len(type) + 1` characters off a formatted instance name gives back the name. */
  lemma {:induction false} DisplayNameOfFormatName(name: string, serviceType: string)
    ensures DisplayName(FormatName(name, serviceType), FormatServiceType(serviceType)) == name
  {
    var full := FormatName(name, serviceType);
    assert |full| - (|FormatServiceType(serviceType)| + 1) == |name|;
  }

  // ------------------------------------------------------------ to_bytes

  /** The Python values a TXT record may hold that the model covers. */
  datatype PyValue = PyNone | PyStr(s: string) | PyBytes(b: Bytes) | PyInt(i: int) | PyBool(flag: bool)

  /** `str(v)` for the non-text scalars. */
  function PyStrOf(v: PyValue): (r: string)
    requires v.PyInt? || v.PyBool?
    ensures v.PyInt? ==> r == IntToDecimal(v.i)
    ensures v.PyBool? ==> r == (if v.flag then "True" else "False")
  {
    match v
    case PyInt(i) => IntToDecimal(i)
    case PyBool(b) => if b then "True" else "False"
  }

  /**
   * `to_bytes`: None stays None, bytes are returned as they are, text is
   * UTF-8 encoded, and any other scalar is first turned into text by `str`.
   */
  function ToBytes(v: PyValue): (r: Option<Bytes>)
    ensures r.None? <==> v.PyNone?
    ensures v.PyBytes? ==> r == Some(v.b)
    ensures v.PyStr? ==> r.Some? && Decode(r.value) == Some(v.s)
    ensures (v.PyInt? || v.PyBool?) ==> r.Some? && Decode(r.value) == Some(PyStrOf(v))
  {
    match v
    case PyNone => None
    case PyBytes(b) => Some(b)
    case PyStr(s) => DecodeEncode(s); Some(Encode(s))
    case _ => DecodeEncode(PyStrOf(v)); Some(Encode(PyStrOf(v)))
  }

  /**
   * The text a value stands for pins its bytes: `to_bytes` of a text or scalar
   * value gives `bs` exactly when `bs` is a valid UTF-8 spelling of that text.
   */
  lemma ToBytesExactly(v: PyValue, bs: Bytes)
    requires v.PyStr? || v.PyInt? || v.PyBool?
    ensures ToBytes(v) == Some(bs) <==> Decode(bs) == Some(if v.PyStr? then v.s else PyStrOf(v))
  {
    if Decode(bs).Some? {
      EncodeDecode(bs);
    }
  }

  /** Distinct texts never become the same bytes, so no two text keys of a record collide. */
  lemma ToBytesTextInjective(a: PyValue, b: PyValue)
    requires a.PyStr? && b.PyStr? && ToBytes(a) == ToBytes(b)
    ensures a == b
  {
    EncodeInjective(a.s, b.s);
  }

  // ---------------------------------------------------------- TXT record

  /** A Python dict, as its items in insertion order. */
  type PyDict = seq<(PyValue, PyValue)>

  /** A TXT record as the engine takes it: byte-string keys and values (None where Python has None). */
  type Txt = map<Option<Bytes>, Option<Bytes>>

  /** The record built by storing every item in turn; a later item overwrites an earlier one with the same key. */
  function TxtFrom(items: PyDict): Txt
  {
    if items == [] then map[]
    else TxtFrom(items[..|items| - 1])[ToBytes(items[|items| - 1].0) := ToBytes(items[|items| - 1].1)]
  }

  /** What `_format_zeroconf_txt` returns; an absent or empty record gives the empty map. */
  function TxtOf(record: Option<PyDict>): Txt
  {
    if record.None? || record.value == [] then map[] else TxtFrom(record.value)
  }

  /** `_format_zeroconf_txt`: fills the result one item at a time. */
  method FormatTxt(record: Option<PyDict>) returns (result: Txt)
    ensures result == TxtOf(record)
  {
    result := map[];
    if record.None? || record.value == [] {
      return;
    }
    var items := record.value;
    var i := 0;
    while i < |items|
      invariant 0 <= i <= |items|
      invariant result == TxtFrom(items[..i])
    {
      var (key, value) := items[i];
      result := result[ToBytes(key) := ToBytes(value)];
      assert items[..i + 1][..i] == items[..i];
      i := i + 1;
    }
    assert items[..i] == items;
  }

  /** The keys of the record are exactly the converted keys of the items. */
  lemma {:induction false} TxtKeys(items: PyDict)
    ensures TxtFrom(items).Keys == set i | 0 <= i < |items| :: ToBytes(items[i].0)
  {
    if items != [] {
      var init := items[..|items| - 1];
      TxtKeys(init);
      assert forall i :: 0 <= i < |init| ==> init[i] == items[i];
    }
  }

  /** An item's value survives in the record unless a later item has a key that converts to the same bytes. */
  lemma {:induction false} TxtLastWins(items: PyDict, j: nat)
    requires j < |items|
    requires forall k :: j < k < |items| ==> ToBytes(items[k].0) != ToBytes(items[j].0)
    ensures ToBytes(items[j].0) in TxtFrom(items)
    ensures TxtFrom(items)[ToBytes(items[j].0)] == ToBytes(items[j].1)
  {
    if j < |items| - 1 {
      var init := items[..|items| - 1];
      assert init[j] == items[j];
      TxtLastWins(init, j);
    }
  }

  /** With distinct text keys, every item's value is in the record under its encoded key. */
  lemma TxtTextKeysKept(items: PyDict)
    requires forall i :: 0 <= i < |items| ==> items[i].0.PyStr?
    requires forall i, j :: 0 <= i < j < |items| ==> items[i].0 != items[j].0
    ensures forall i :: 0 <= i < |items| ==>
      Some(Encode(items[i].0.s)) in TxtFrom(items) && TxtFrom(items)[Some(Encode(items[i].0.s))] == ToBytes(items[i].1)
  {
    forall i | 0 <= i < |items|
      ensures Some(Encode(items[i].0.s)) in TxtFrom(items)
      ensures TxtFrom(items)[Some(Encode(items[i].0.s))] == ToBytes(items[i].1)
    {
      forall k | i < k < |items| ensures ToBytes(items[k].0) != ToBytes(items[i].0) {
        if ToBytes(items[k].0) == ToBytes(items[i].0) {
          ToBytesTextInjective(items[k].0, items[i].0);
        }
      }
      TxtLastWins(items, i);
    }
  }

  /** `{"a": 1}` becomes `{b"a": b"1"}`. */
  lemma TxtOfExample()
    ensures TxtOf(Some([(PyStr("a"), PyInt(1))])) == map[Some([0x61]) := Some([0x31])]
  {
    var items := [(PyStr("a"), PyInt(1))];
    assert NatToDecimal(1) == "1";
    assert PyStrOf(PyInt(1)) == "1";
    EncodeAscii("a");
    EncodeAscii("1");
    assert Encode("a") == [0x61];
    assert Encode("1") == [0x31];
    assert IntToDecimal(1) == "1";
    assert ToBytes(PyStr("a")) == Some([0x61]);
    assert ToBytes(PyInt(1)) == Some([0x31]);
    assert items[..0] == [];
    assert TxtFrom(items) == map[][Some([0x61]) := Some([0x31])];
  }
}
