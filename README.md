# Zero-conf handler, modelled in Dafny

This project models the core of `zero_conf_handler.py` from the multicast-DNS
server: the part that advertises and discovers services over
Zeroconf/Bonjour/Avahi. Services are advertised as DNS-SD records of the form
`<name>.<type>.local.`. It models the following:

- The formatters that produce those names and the byte-string TXT record
  (`to_bytes`, `_format_zeroconf_service_type`, `_format_zeroconf_name`,
  `_format_zeroconf_server_name`, `_format_zeroconf_txt`).
- The interface-address scan (`interface_addresses` and
  `get_interface_addresses`). It keeps the IPv4 addresses that are neither
  loopback nor link-local.
- The `ZeroConfHandler` class. It owns its registration ledger: a
  `defaultdict(list)` from `(service type, port)` to the records registered
  under that key. The class is modelled with the constructor,
  `zeroconf_register` and `zeroconf_unregister`.
- The parts of `zeroconf_browse` that are logic rather than threading:
  - the argument check;
  - the listener turning each resolved instance into one result per
    address;
  - what the call returns and what the callback receives.

Files, one module each:

| file | module | what it holds |
|---|---|---|
| `wrappers.dfy` | `Wrappers` | `Option`, `Result`, and `ConcatMap`: building a list from per-item results, where the first error ends the run, as an exception leaving a generator or `list(map(...))` does |
| `text.dfy` | `Text` | UTF-8 encoding (RFC 3629) with a decoder as its partner; the decimal spelling of integers that Python's `str` produces |
| `formatting.dfy` | `Formatting` | the four formatters and `to_bytes` |
| `inet.dfy` | `Inet` | `inet_aton` / `inet_ntoa` on dotted-decimal IPv4 text, with round trips in both directions |
| `addresses.dfy` | `Addresses` | the interface-address scan, over a `Host` value that stands for `netifaces` and `socket.gethostname()` |
| `engine.dfy` | `Engine` | the record handed to the `zeroconf` library (`ServiceInfo`) and the calls made to it |
| `handler.dfy` | `Handler` | the `ZeroConfHandler` class, its ledger and its ledger invariant |
| `browse.dfy` | `Browse` | `zeroconf_browse` and its listener |

The handler keeps a ghost log (`engineCalls`) of the engine calls it makes: the
opening in the constructor and every `register_service` and
`unregister_service` call. Its invariant `Valid()` has two parts:

- Every ledger bucket is non-empty, and it holds only records whose own
  `(type, port)` is the bucket's key.
- Every record in the ledger was handed to the engine with
  `allow_name_change=True`.

What the engine does with a call is not modelled. It reaches the model as
parameters:

- whether `register_service` accepts the record (`engineAccepts`);
- which `unregister_service` call raises, if any (`failsAt`);
- what `get_service_info` resolved for each discovered instance (a sequence of
  `Option<ServiceInfo>`, in discovery order).

## Model

| member | source | states |
|---|---|---|
| Text.EncodeChar | zero_conf_handler.py:34 | the UTF-8 encoding of a character is 1 to 4 bytes; it is a single byte, equal to the code point, exactly for ASCII; every byte after the first is a continuation byte |
| Text.DecodeEncode | zero_conf_handler.py:33-34 | decoding the UTF-8 encoding of any string gives back that string, so `str.encode` loses nothing |
| Text.EncodeOfDecodeChar | zero_conf_handler.py:33-34 | the bytes the decoder reads one character from are exactly that character's UTF-8 encoding: overlong forms, surrogates and values above U+10FFFF are rejected |
| Text.EncodeDecode | zero_conf_handler.py:33-34 | any bytes that decode to a string are exactly that string's encoding, so the decoder and `str.encode` are inverse in both directions |
| Text.EncodeInjective | zero_conf_handler.py:33-34 | two different strings never encode to the same bytes |
| Text.EncodeAscii | zero_conf_handler.py:34 | on ASCII text the encoding has one byte per character, equal to its code point |
| Text.NatToDecimal | zero_conf_handler.py:31 | `str(n)` of a natural number is a canonical numeral (digits, no superfluous leading zero), one digit exactly when n < 10 |
| Text.DecimalRoundTrip | zero_conf_handler.py:31 | the value of `str(n)` read as a decimal numeral is n |
| Text.CanonicalRoundTrip | zero_conf_handler.py:31 | every canonical numeral is `str` of its own value, so the spelling is unique |
| Text.IntToDecimal | zero_conf_handler.py:31 | `str(i)` of an int is the canonical numeral of i, preceded by `-` exactly when i is negative |
| Formatting.FormatServiceType | zero_conf_handler.py:38-43 | the result ends with `local.`, extends its input, and is the input itself when the input already ends with `local.` |
| Formatting.FormatServiceTypeCases | zero_conf_handler.py:38-43 | what is appended in each of the four cases: nothing (ends `local.`), `.` (ends `local`), `local.` (ends `.` but not `local.`), `.local.` (neither) |
| Formatting.FormatServiceTypeIdempotent | zero_conf_handler.py:38-43 | formatting a formatted type changes nothing; this is why the second formatting at line 47 is harmless |
| Formatting.FormatName | zero_conf_handler.py:46-48 | the instance name is `name`, then `.`, then the formatted type, and has exactly that length |
| Formatting.FormatServerName | zero_conf_handler.py:51-54 | the result ends with `.`, extends its input by at most one character, and is the identity on dot-terminated names |
| Formatting.FormatServerNameIdempotent | zero_conf_handler.py:51-54 | formatting a server name twice is formatting it once |
| Formatting.SliceDropLast | zero_conf_handler.py:239 | Python's `s[:-k]` is a prefix of `s` of length `len(s) - k`, and is empty when `k` exceeds `len(s)` |
| Formatting.DisplayNameOfFormatName | zero_conf_handler.py:239 | cutting `len(type) + 1` characters off `_format_zeroconf_name(name, type)`, with the formatted type, gives back exactly `name` |
| Formatting.PyStrOf | zero_conf_handler.py:30-31 | `str` of an int is its decimal spelling; `str` of a bool is `True` or `False` |
| Formatting.ToBytes | zero_conf_handler.py:27-36 | `to_bytes` gives None exactly for None; it is the identity on bytes; it gives bytes that decode to the text for a str, and to `str(v)` for an int or bool |
| Formatting.ToBytesExactly | zero_conf_handler.py:30-34 | for a str, int or bool, `to_bytes` gives `bs` exactly when `bs` is the valid UTF-8 spelling of the text (of `str(v)` for an int or bool); the bytes are thereby fixed |
| Formatting.ToBytesTextInjective | zero_conf_handler.py:33-34 | two different text keys never become the same byte key |
| Formatting.FormatTxt | zero_conf_handler.py:57-64 | the loop builds the record `TxtOf` describes: the empty map for a missing or empty record, otherwise every item stored in turn |
| Formatting.TxtKeys | zero_conf_handler.py:62-63 | the record's keys are exactly `to_bytes` of the dictionary's keys |
| Formatting.TxtLastWins | zero_conf_handler.py:62-63 | an item's converted value is in the record under its converted key unless a later item's key converts to the same bytes |
| Formatting.TxtTextKeysKept | zero_conf_handler.py:62-63 | with distinct text keys, every item's converted value is in the record under the UTF-8 encoding of its key |
| Formatting.TxtOfExample | zero_conf_handler.py:57-64 | `{"a": 1}` becomes `{b"a": b"1"}` |
| Inet.ParseOctet | zero_conf_handler.py:133 | a field of a dotted quad is accepted only when it is the canonical numeral of a value below 256 |
| Inet.AtonNtoa | zero_conf_handler.py:255 | parsing the text `inet_ntoa` prints for a packed address gives back that address |
| Inet.NtoaAton | zero_conf_handler.py:133 | an address text the parser accepts is exactly what `inet_ntoa` prints for the packed result |
| Addresses.Classify | zero_conf_handler.py:88-90 | an entry raises `AddrFormatError` exactly when it does not parse; otherwise it is kept exactly when it is neither link-local nor loopback |
| Addresses.Without | zero_conf_handler.py:78-79 | an interface stays in the list exactly when it was in it and is not ignored |
| Addresses.WithoutAppend | zero_conf_handler.py:78-79 | filtering a concatenation filters each part, so the kept interfaces stay in their order and with their repetitions |
| Addresses.WithoutOne | zero_conf_handler.py:78-79 | a single interface is kept exactly when it is not ignored |
| Addresses.UsableAmong | zero_conf_handler.py:87-90 | the inner loop over one interface's IPv4 entries produces the usable ones in order, or the first parse error |
| Addresses.InterfaceAddresses | zero_conf_handler.py:67-96 | the generator loop, collected into a list, is the scan `InterfaceAddressesOf` describes |
| Addresses.OnlyUsableAddresses | zero_conf_handler.py:88-90 | every address returned parses and is neither loopback nor link-local |
| Addresses.AddressesComeFromScannedInterfaces | zero_conf_handler.py:75-87 | every address returned is bound, for IPv4, to an interface that was asked for and is not ignored |
| Addresses.BoundAddressesReturned | zero_conf_handler.py:75-90 | nothing usable is missed: an IPv4 address bound to an interface that was asked for, is not ignored and does not raise is in a successful result exactly when it is neither loopback nor link-local |
| Addresses.RaisingInterfaceSkipped | zero_conf_handler.py:82-85 | an interface whose lookup raises contributes nothing, and the scan carries on with the next one |
| Addresses.InterfaceOrder | zero_conf_handler.py:81-90 | the output lists the addresses interface by interface, in scan order; an error in an earlier interface ends the scan |
| Engine.Withdrawals | zero_conf_handler.py:176-177 | one `unregister_service` call per record, in the records' order |
| Handler.Append | zero_conf_handler.py:150 | `registrations[key].append(info)` adds the key if missing, puts `info` at the end of its bucket and leaves every other bucket as it was |
| Handler.NameOr | zero_conf_handler.py:119 | a missing or empty name falls back to the default; a given non-empty name is used as it is |
| Handler.PortOr | zero_conf_handler.py:120 | a missing port or port 0 falls back to the default; a given non-zero port is used as it is |
| Handler.PackOne | zero_conf_handler.py:133 | `inet_aton` of one address raises exactly when the address does not parse, and otherwise gives its packed form |
| Handler.PackAllParsed | zero_conf_handler.py:133 | when every address parses, the packed list has one entry per address, in order |
| Handler.RecordShape | zero_conf_handler.py:119-148 | the record handed to the engine has the formatted type; the fallback port; an instance name the listener turns back into the fallback name; a dot-terminated server name; the converted TXT record; and ledger key `(formatted type, fallback port)` |
| Handler.EnumeratedAddressesPack | zero_conf_handler.py:128-133 | without an explicit address, the record fails only when the interface scan raises; otherwise it advertises the scanned addresses, packed, one for one and in scan order (each prints back as the scanned text), none loopback or link-local |
| Handler.ExplicitAddressSkipsEnumeration | zero_conf_handler.py:128-129 | with an explicit address, the host's interfaces play no part; the record advertises exactly that address, or `inet_aton` raises for it |
| Handler.AppendWellFiled | zero_conf_handler.py:150 | filing a record under its own key keeps every bucket non-empty and keeps every record in the bucket of its own key |
| Handler.SameKeyAccumulates | zero_conf_handler.py:150 | two registrations under one key leave both records in that bucket, in call order |
| Handler.PopUndoesAppends | zero_conf_handler.py:174 | popping a key that two registrations introduced restores the ledger as it was |
| Handler.RegisterKeepsFiled | zero_conf_handler.py:149-150 | a registration keeps the invariant whether or not the engine accepts the record, because the record is logged before it is filed |
| Handler.UnregisterKeepsFiled | zero_conf_handler.py:174-177 | popping a bucket and logging withdrawals keeps the invariant |
| Handler.Attempted | zero_conf_handler.py:175-180 | the number of withdrawals issued is one past the failing one, or the whole bucket when none fails |
| Handler.ZeroConfHandler.constructor | zero_conf_handler.py:100-105 | the name falls back to `Server on <hostname>`, the port to 8080; the ledger starts empty, the engine has been opened, and the invariant holds |
| Handler.ZeroConfHandler.Create | zero_conf_handler.py:100-105 | construction raises exactly when the interface scan does; otherwise the engine is opened on the scanned addresses |
| Handler.ZeroConfHandler.BuildRecord | zero_conf_handler.py:119-138 | the steps before the `try` compute the record `RecordFor` describes, or the exception they raise |
| Handler.ZeroConfHandler.Register | zero_conf_handler.py:107-155 | an error before the `try` propagates with nothing changed; otherwise the record is sent to the engine, and it is appended to its bucket only when the engine accepts it |
| Handler.ZeroConfHandler.Unregister | zero_conf_handler.py:157-180 | an unknown key changes nothing and calls nothing; a known key's bucket is removed, other buckets stay as they were, and its records are withdrawn in order up to and including the first failing withdrawal; since a bucket is never empty, the first withdrawal is always issued, for the bucket's first record |
| Browse.ToResult | zero_conf_handler.py:238-255 | a result carries the record's port and TXT record, `inet_ntoa` of the address as its host, and a prefix of its instance name |
| Browse.ResultName | zero_conf_handler.py:239 | a result's name is the instance name less its last `len(type) + 1` characters (empty when the name is shorter); for a name ending in `.<type>` it is exactly the part in front |
| Browse.ResultHostParsesBack | zero_conf_handler.py:255 | a result's host text parses back to the packed address it was made from |
| Browse.ResultsFor | zero_conf_handler.py:255-256 | a resolved instance gives exactly one result per address, in address order |
| Browse.Accumulated | zero_conf_handler.py:232-256 | the shared result list has one entry per address of every resolved instance |
| Browse.AddService | zero_conf_handler.py:232-256 | the listener's `add_service` appends the results of one resolved instance, and nothing for one that did not resolve |
| Browse.Listen | zero_conf_handler.py:228-256 | calling `add_service` once per discovered instance builds the list `Accumulated` describes |
| Browse.ZeroconfBrowse | zero_conf_handler.py:219-284 | non-blocking without a callback raises, and only then; otherwise the formatted type is browsed, a blocking call returns the results and a non-blocking one `[]`, and the callback, when given, receives the results |
| Browse.AccumulatedAppend | zero_conf_handler.py:255-256 | results come in discovery order: those of earlier instances precede those of later ones |
| Browse.UnresolvedIgnored | zero_conf_handler.py:233-236 | an instance that did not resolve contributes nothing |
| Browse.RegisteredRecordBrowsedBack | zero_conf_handler.py:238-256 | a registered record, resolved and browsed under its own formatted type, gives one result per advertised address; each has the registered name and port, a host that parses back to that address, and the registered TXT record |
| Browse.ExplicitAddressBrowsedBack | zero_conf_handler.py:255 | with an explicit address, the first result's host is exactly the address text that was registered |

Where the docstring and the code disagree, the model follows the code. The
docstring of `zeroconf_browse` calls the non-blocking version the default;
the code defaults `block` to `True`.

## Left out

- Threads, `time.sleep`, `threading.Event` and the `ServiceBrowser` lifecycle (the browse thread): `ZeroconfBrowse` takes the session's resolutions as a sequence, and the model does not capture when the callback runs relative to the return.
- `browse_timeout` and `resolve_timeout`: wall-clock timing. An instance that does not resolve in time is a `None` resolution.
- Logging, which has no effect on control flow. This includes the exception message at line 155, which is not an f-string and is logged with the placeholders uninterpolated.
- The internals of the `zeroconf` library (`Zeroconf`, `ServiceInfo`, `register_service`, `unregister_service`, `get_service_info`). They are foreign code: constructing `ServiceInfo` and calling `register_service` is one engine step whose outcome is the `engineAccepts` parameter, a failing withdrawal is the `failsAt` parameter, and engine calls are recorded in a ghost log.
- Handler.ZeroConfHandler.Register and Browse.RegisteredRecordBrowsedBack: the ledger holds the very `ServiceInfo` objects handed to the engine, and `register_service(..., allow_name_change=True)` may rename such an object in place when its name is taken on the network. The model files record values, so a rename by the engine is not captured; the "registered name" in these contracts is the name before any such rename.
- Handler.ZeroConfHandler.Register: an exception raised while building `ServiceInfo` inside the `try` is folded into the engine refusing the record, since both leave the ledger unchanged and are swallowed.
- `netifaces` and `socket.gethostname()`: the host is a `Host` value (hostname, interface list, per-interface lookup that may raise). Only the `AF_INET` family is modelled, because the handler never passes another; the `family` parameter of `interface_addresses` is left out.
- IPv6 addresses and `netaddr.IPAddress`'s other accepted spellings: only IPv4 dotted-decimal text is modelled. Loopback is 127.0.0.0/8 (RFC 1122, section 3.2.1.3) and link-local is 169.254.0.0/16 (RFC 3927, section 2.1).
- Inet.Aton: accepts only four canonical decimal fields. The C library's `inet_aton` also accepts fewer fields, octal and hexadecimal fields, and trailing text after whitespace; such texts are rejected here and so raise in the model.
- Formatting.ToBytes: floats and other Python objects are left out (`PyValue` covers None, str, bytes, int and bool), and only UTF-8 with `errors="strict"` is modelled, which is what the handler uses. A Dafny string holds no surrogates, so strict encoding never fails here.
- Python's equality of `1`, `1.0` and `True` as dictionary keys is not modelled: a TXT record is a sequence of items in insertion order.
- The host's interface table changing over time: `host` is fixed for the handler's lifetime, so the interfaces scanned at construction are the ones every later registration scans.
- The engine's teardown (`Zeroconf.close`): the handler never calls it.
- `run_server.py` and both `__main__` demo blocks: an HTTP server, thread start-up and demo calls with no logic of their own.
