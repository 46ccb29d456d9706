# yterm port resolver and input dispatcher, in Dafny

yterm is a serial terminal for microcontroller boards. It relays bytes
between the user's terminal and a USB serial device, and reopens the device
when it disappears. This project models two parts of `main.go`.

- **Port resolution (`getDefaultPort`).** The model covers the darwin, linux
  and windows branch: the `-port` flag, the target's `serial-port`
  fingerprints (`usb:vid:pid` or `acm:vid:pid`), and the detailed port
  enumeration decide which device to open. This is a pure function,
  `PortResolver.Resolve`. The enumerator's records and the fallback listing
  are inputs. An input of `None` stands for a call that returned an error.
- **Input dispatch (the stdin loop of `run`).** `InputDispatcher.Step`
  handles one chunk read from the terminal. It decides whether the session
  ends: on Ctrl-C unless disabled, or on `q` right after Ctrl-X, where that
  Ctrl-X may be the last byte of an earlier chunk. If the session continues,
  `Step` decides whether the chunk is written to the port: only when the
  reconnecting reader has not marked the port as failing.
  `InputDispatcher.Run` folds `Step` over a sequence of chunks.

The Go library functions the resolver relies on are modelled as well:

- `strings.Split`, `strings.FieldsFunc` and `strings.Join` (module `Text`);
- `strconv.ParseUint(s, 16, 16)` (module `Hex`).

`main.go` has three defects in the resolver. `PortResolver.Policy` chooses
between the code as written (`AsWritten`) and the evidently intended code
(`Corrected`). Every general property is proved for both policies, except
where a lemma says otherwise. The two versions are compared in
"Findings" below.

Layout:

| file | contents |
|---|---|
| `wrappers.dfy` | `Option`, `Result` |
| `text.dfy` | Go string splitting and joining |
| `hex.dfy` | hexadecimal 16-bit parsing |
| `resolver.dfy` | the resolver: fingerprints, partition, shortlist, selection |
| `resolver_properties.dfy` | properties of the resolver across all inputs |
| `resolver_findings.dfy` | the three defects, as written and corrected |
| `dispatcher.dfy` | the stdin escape and forwarding loop |

## Model

| member | source | states |
|---|---|---|
| Text.Split | main.go:246 | `strings.Split` at one character. There is always at least one part. No part contains the separator. Joining the parts with the separator gives back the input. |
| Text.NonEmpty | main.go:228 | Every kept string is non-empty and comes from the input, and every non-empty input string is kept. Order and multiplicity are stated by `NonEmptyOfOne` and `NonEmptyConcat`. |
| Text.NonEmptyOfOne | main.go:228 | A single string is kept exactly when it is non-empty. |
| Text.NonEmptyConcat | main.go:228 | Dropping empty strings commutes with concatenation. With `NonEmptyOfOne` this fixes the result on every list: the kept strings keep their order and their number of occurrences. |
| Text.Fields | main.go:228 | The names that `FieldsFunc` finds in the `-port` flag are never empty and never contain a comma. |
| Text.FieldsAfterName | main.go:228 | A comma-free name followed by a comma and the rest of the flag gives that name, if it is non-empty, followed by the names of the rest. |
| Text.FieldsSkipEmptyName | main.go:228 | `a,,b` gives exactly `a` and `b`. |
| Text.FieldsOfLoneComma | main.go:228 | A lone comma gives no name at all. |
| Text.SplitOfJoin | main.go:246 | Splitting undoes joining whenever no part contains the separator. |
| Text.FieldsOfJoin | main.go:228 | Non-empty, comma-free names that are comma-joined come back unchanged and in order. |
| Text.FieldsOfSingleName | main.go:228-230 | One non-empty, comma-free name is read as exactly that one candidate. |
| Text.FieldsIdempotent | main.go:228 | Reading the comma-join of the found names finds the same names again. |
| Text.JoinContainsPart | main.go:334 | Every joined string occurs verbatim in the result of `strings.Join`. |
| Text.JoinLength | main.go:334 | A join is as long as its parts plus one separator between each pair of neighbours, and it begins with the first part. |
| Text.SplitCountsSeparators | main.go:246-247 | A string with n separators splits into n + 1 parts. So the "three parts" test means "exactly two colons". |
| Hex.DigitValue | main.go:254 | Every hex digit, of either case, has a value below 16. |
| Hex.ParseUint16 | main.go:254-261 | `ParseUint(s, 16, 16)` succeeds exactly when `s` is a non-empty string of hex digits whose value is at most 0xFFFF. It then returns that value. |
| Hex.Accumulate | main.go:254 | The digit loop, which stops early on a bad digit or an overflow, gives the same verdict and value as that definition. |
| Hex.HexValuePrefixBound | main.go:254 | A prefix is never worth more than the whole string, so the loop's early overflow error is final. |
| Hex.ParseIgnoresCase | main.go:273-277 | Upper- and lower-case IDs parse to the same result, so an enumerator's "2E8A" matches a fingerprint's "2e8a". |
| Hex.ParseIgnoresLeadingZero | main.go:254 | For a non-empty string, a leading zero never changes the result, including an error result. |
| Hex.ParseFormatHex4 | main.go:273-277 | Every 16-bit ID rendered as four lower-case hex digits parses back to itself. |
| PortResolver.Skipped | main.go:246-253 | An entry without exactly three fields is skipped. As written, a three-field entry is skipped exactly when its kind is `usb`. Corrected, it is skipped exactly when its kind is neither `usb` nor `acm`. |
| PortResolver.ReadFingerprintFields | main.go:245-262 | An entry is read at all only when it has exactly two colons and is not skipped. A parsed entry's pair is the hex value of its second and third fields. |
| PortResolver.ReadFingerprintQuotes | main.go:254-261 | A malformed entry gives a USB ID error that quotes a field of the entry. Corrected, the quoted text is always one that fails to parse. |
| PortResolver.Message | main.go:256-260 | An ID error message contains the offending text. The ambiguity message (line 334) contains the whole joined pool. The not-found message (line 346) contains the joined request and the joined pool. |
| PortResolver.ParsePreferred | main.go:244-263 | Reading the fingerprints succeeds exactly when no entry that is read is malformed. On failure the error is that of the first malformed entry, as the loop's early return gives. |
| PortResolver.PreferredIdsAreFingerprintIds | main.go:244-263 | A pair is among the preferred pairs exactly when some fingerprint entry is read as it. |
| PortResolver.PreferredIdCounts | main.go:244-263 | Each pair occurs among the preferred pairs exactly as often as entries are read as it, so a repeated entry gives a repeated pair. |
| PortResolver.ParsePreferredConcat | main.go:244-263 | Reading a list of entries is reading its two halves in turn. An error in the first half wins, then one in the second half. Otherwise the pairs of both halves are kept in order. |
| PortResolver.AppendPerMatch | main.go:276-282 | The inner loop appends the port's name once for each equal preferred pair, and appends nothing else. |
| PortResolver.PortId | main.go:271-275 | A port has an ID exactly when both its vendor and product fields parse, and the ID is their value. The emptiness test of line 271 adds nothing, because the empty string never parses. |
| PortResolver.PartitionSizes | main.go:267-290 | The secondary list has at most one entry per port. Corrected, so do both lists together. Without preferred pairs the primary list is empty. |
| PortResolver.PartitionMembers | main.go:265-290 | Every preferred USB port is in the primary list. Every other USB port is in the secondary list. Nothing else is in either list. |
| PortResolver.PrimaryEntriesOfPort | main.go:276-286 | One port adds entries to the primary list exactly when it is preferred, and those entries are its own name. |
| PortResolver.PrimaryFromPreferred | main.go:265-290 | Every primary name belongs to an enumerated port that carries a preferred ID. |
| PortResolver.PreferredInPrimary | main.go:265-290 | Every enumerated port that carries a preferred ID is in the primary list. |
| PortResolver.SecondaryMembers | main.go:265-290 | The secondary list holds exactly the USB ports that are not preferred. |
| PortResolver.EmptyPartitionHasNoUsb | main.go:265-290 | If both lists are empty, no enumerated port is USB. |
| PortResolver.MakeShortlist | main.go:233-328 | The result is an enumeration error exactly when enumeration failed. Given an enumeration, it is a fingerprint error exactly when the fingerprints are malformed. A pool to choose from is never empty. |
| PortResolver.PreferredShortlistMember | main.go:291-295 | A single preferred port is an enumerated port that carries a preferred ID. |
| PortResolver.PoolShortlistMembers | main.go:296-317 | A pool holds enumerated USB ports. The only exception is the fallback listing, which is used only when no enumerated port is USB. |
| PortResolver.FirstIn | main.go:338-344 | Returns the first requested name found among the available ports, and reports none only when no requested name is available. |
| PortResolver.Select | main.go:330-346 | With no `-port` list, the result is the only port, or an ambiguity error that lists the pool. With a list, the result is the first requested name that is available, or a not-found error that lists both. |
| PortResolver.Resolve | main.go:227-347 | Unless `-port` names exactly one port, a result is an enumerated USB port. The only exception is when no port is USB, and then the result comes from the fallback listing. |
| ResolverProperties.ExplicitPortTrusted | main.go:228-231 | Whenever `FieldsFunc` finds exactly one name in the `-port` value (for example `,/dev/ttyACM0,,`), that name is returned. Nothing attached matters, and enumeration may even fail. |
| ResolverProperties.SinglePortNameTrusted | main.go:228-231 | A plain non-empty, comma-free `-port` value is returned as itself. |
| ResolverProperties.PartitionConcat | main.go:267-290 | Partitioning a concatenated enumeration gives the concatenation of the two partitions, so order is kept. |
| ResolverProperties.NoPreferredNoPrimary | main.go:265-290 | Without a preferred port the primary list is empty. |
| ResolverProperties.NoUsbEmptyPartition | main.go:267-270 | Without a USB port both lists are empty. |
| ResolverProperties.PrimaryOfSinglePreferred | main.go:276-291 | With exactly one preferred port, the corrected primary list is that port's name. As written, the list has one entry per equal preferred pair. |
| ResolverProperties.SingleMatchingBoardSelected | main.go:291-295 | If exactly one attached port carries a preferred ID, that port is chosen, however many other ports are attached. As written, exactly one fingerprint entry must be read as that ID. |
| ResolverProperties.SecondaryOfSingleUsb | main.go:265-290 | When only one port is USB and it is not preferred, the primary list is empty and the secondary list is exactly that port's name. |
| ResolverProperties.SingleUsbPortSelected | main.go:301-332 | Without a `-port` list and without a preferred match, a lone USB port is chosen, however many non-USB ports are attached and whatever the fallback listing holds. |
| ResolverProperties.PreferredPortsTakePrecedence | main.go:291-305 | If a preferred port is attached, the choice is a preferred port. If none is but a USB port is, the choice is a non-preferred USB port. |
| ResolverProperties.FallbackOnlyWithoutUsbPorts | main.go:307-317 | With any USB port attached, the fallback listing cannot change the result. |
| ResolverProperties.ShortlistIgnoresFallback | main.go:307-317 | With any USB port attached, the shortlist does not depend on the fallback listing. |
| ResolverProperties.NoUsbPortUsesFallback | main.go:307-328 | Without a USB port, a failed fallback listing and an empty one are errors. A non-empty one is chosen from as an enumerated pool would be. |
| ResolverProperties.MalformedFingerprintFailsFast | main.go:254-261 | A malformed entry that is read fails the resolution with a USB ID error, even when no attached port could match it. |
| ResolverProperties.ErrorsListEveryName | main.go:334-346 | The ambiguity message names every pool entry. The not-found message names every requested and every available port. |
| ResolverProperties.AmbiguousListsPool | main.go:334 | Every pool entry appears in the ambiguity message. |
| ResolverProperties.NotFoundListsNames | main.go:346 | Every requested and every available name appears in the not-found message. |
| ResolverFindings.KindFilterAsWritten | main.go:245-262 | As written, an entry is skipped exactly when its kind is `usb`. A `usb` board next to another USB port then gives an ambiguity error. An unknown kind with a non-hex vendor ID fails the resolution. |
| ResolverFindings.UsbEntryIgnoredAsWritten | main.go:247-305 | As written, an ignored fingerprint leaves two USB ports ambiguous, even when one of them is the board. |
| ResolverFindings.KindFilterCorrected | main.go:247-253 | Corrected, an entry is skipped exactly when its kind is neither `usb` nor `acm`. Other kinds change nothing, and a `usb` or `acm` entry selects its board. |
| ResolverFindings.ProductIdErrorAsWritten | main.go:258-261 | As written, a bad product ID is reported with the vendor-ID text. |
| ResolverFindings.ProductIdErrorCorrected | main.go:258-261 | Corrected, a bad product ID is reported with the product-ID text. |
| ResolverFindings.DuplicatePairAmbiguousAsWritten | main.go:276-286 | As written, a board whose ID is listed twice is reported as two ambiguous ports. |
| ResolverFindings.DuplicatePairCorrected | main.go:276-295 | Corrected, a board whose ID is listed twice is selected. |
| InputDispatcher.Scan | main.go:205-215 | The byte loop breaks exactly when some byte ends the session, judged against the byte before it. Otherwise it leaves the last byte read remembered. |
| InputDispatcher.Step | main.go:203-220 | A chunk ends the session exactly when it contains a trigger. Otherwise it is written whole when the port is healthy and dropped whole when the port is failing, and its last byte is remembered. |
| InputDispatcher.ScanConcat | main.go:200-215 | Scanning two pieces in turn is scanning their concatenation, because the remembered byte carries the state across. |
| InputDispatcher.Run | main.go:202-221 | While the session goes on, the remembered byte is the last byte typed. No more bytes are written than were typed. |
| InputDispatcher.RunConcat | main.go:202-221 | Running two runs of chunks back to back is running their concatenation. Once the session has ended, nothing later is read or written. |
| InputDispatcher.ExitIffStreamTriggers | main.go:200-215 | The session ends exactly when the typed byte stream contains a trigger, however that stream was split into chunks. |
| InputDispatcher.LastByteConcat | main.go:214 | The remembered byte after two pieces is the one after the second piece, starting from the byte after the first. |
| InputDispatcher.HealthyRunForwardsEverything | main.go:216-220 | While the port is healthy and no trigger is typed, every byte is written, in order, and the last byte typed is remembered. |
| InputDispatcher.TriggeringChunkNotWritten | main.go:202-221 | The chunk that ends the session adds nothing to what was written, and neither does anything after it. |
| InputDispatcher.EscapeExamples | main.go:206-213 | Ctrl-X `q` ends the session, also after a second Ctrl-X and across a chunk boundary. `x q` does not end it, and both bytes are written. Ctrl-C ends the session only when it is not disabled. |

## Left out

- Only the darwin, linux and windows branch of `getDefaultPort` is modelled. The freebsd glob (lines 235-236) and the unsupported-OS error (line 319) are left out.
- `enumerator.GetDetailedPortsList`, `filepath.Glob` and `serial.GetPortsList` are foreign calls. Their results are inputs (`Option`, `None` for an error), and the choice of glob pattern per OS is not modelled.
- The Go error texts passed through from those calls are not modelled. `Message` uses a fixed text for `EnumerationFailed` and `FallbackFailed`. The `%q` quoting of a bad ID is rendered with plain double quotes, without Go's escaping, and the wrapped `strconv` cause is dropped.
- PortResolver.MakeShortlist: a `nil` listing ("unable to locate a serial port", line 325) and an empty listing ("no serial ports available", line 327) are both `NoPort`. The model does not distinguish `nil` from an empty slice.
- Hex.ParseUint16: the syntax error and the range error of `ParseUint` are both `None`, because the resolver treats them alike.
- `main`, flag parsing, `showPorts`, `getTargetSpecs` and the JSON loading of target files are left out. The fingerprints are an input.
- The initial-open retry loop, the reconnecting reader goroutine, the output printing, the mutex, terminal raw mode and signal handling are left out. The reader enters the dispatcher model only through the failure flag sampled when each chunk is about to be written (`portErrors`).
- Go strings are byte strings, but the model's `string` is a sequence of Unicode characters, so a device name or `-port` value that is not valid UTF-8 is not representable. On valid UTF-8 the behaviour is the same: every separator is ASCII and names are only compared for equality.
- The 1000-byte read buffer (line 199) is not modelled. Chunks are arbitrary byte sequences, and a zero-length read is the empty chunk.
- Forwarding is per chunk, not per byte: the code writes a whole chunk or nothing. So the bytes before a trigger in the same chunk are not written. A Ctrl-X that ends an earlier chunk has already been written before the `q` that completes the escape arrives.

## Findings

| source | as written | input that shows it | evidently intended | confidence | as-written member | corrected member |
|---|---|---|---|---|---|---|
| main.go:247 | `len(parts) != 3 \|\| (parts[0] != "acm" && parts[0] == "usb")` skips every `usb` entry and reads every other kind | fingerprint `usb:2341:0043`, with an Uno (2341:0043) and a second USB adapter attached and no `-port`: an ambiguity error naming both ports; also `foo:zz:zz` gives a vendor-ID error | read exactly the `usb` and `acm` entries and ignore the other kinds, as the comment at lines 248-251 says | high; not executed | ResolverFindings.KindFilterAsWritten | ResolverFindings.KindFilterCorrected |
| main.go:260 | the product-ID error formats `parts[1]`, the vendor ID | fingerprint `acm:2e8a:zz`: the error quotes "2e8a" | quote `parts[2]`, the product-ID text that failed | high; not executed | ResolverFindings.ProductIdErrorAsWritten | ResolverFindings.ProductIdErrorCorrected |
| main.go:280 | `continue` only continues the loop over preferred pairs, so a port is appended once per equal pair | fingerprints `acm:2e8a:000a` twice, with one Pico (2e8a:000a) attached and no `-port`: an ambiguity error naming `/dev/ttyACM0` twice | append each matching port once and move on to the next port | medium; not executed | ResolverFindings.DuplicatePairAmbiguousAsWritten | ResolverFindings.DuplicatePairCorrected |
