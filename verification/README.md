# NetSee: a verified model

NetSee measures a network path from both ends: a client sends traffic to a probe, the
probe records what it sees, and the client pulls the record and draws conclusions. This
project models the five parts of it that carry logic of their own, and proves what they
promise.

* **ClientHello.** `Wire` and `HelloFormat` give the grammar: which bytes are accepted and
  what is extracted from them. `HelloBuilder` is the encoder, `HelloParser` the incremental
  parser as it runs (a reused byte array, cursors, views into the array), `HelloLimits` where
  its limits show, `HelloLayout` the format in numbers, `Fingerprint` and
  `FingerprintWriter` the JA3 and JA4 texts and the code that writes them,
  `FingerprintReading` those texts character by character, `Ja4Order` what
  JA4 does not depend on.
* **Session registry.** `Store` is the object with its map of session objects, `Registry`
  the value each call computes, `RegistryRuns` and `RegistryQueue` whole runs of calls.
* **UDP measurements.** `UdpPayload`, `UdpProbe` and `NatBox` are the datagrams, the probe
  and the translator, `UdpSystem` all of them with the network as one step system,
  `NatTest` the client's side of it.
* **Path MTU.** `Pmtu`.
* **Identifiers and comparison.** `SessionId`, `Dns`; `TlsSniffer` joins identifier,
  ClientHello and registry.

`Options`, `Text`, `Seqs` and `Proto` hold what these share.

Conventions. A Go string is a sequence of bytes; here it is a Dafny string, each character
standing for a byte. MD5 and SHA-256 are function parameters, so every statement about JA3
and JA4 is one about the texts that are hashed. `sort.Strings` is a function that returns
the sorted arrangement, which is proved to be unique. Clock readings are parameters of the
calls. The order in which Go walks a map is a nondeterministic choice. Mutex-protected
calls are atomic, so a run is a sequence of calls. Code that works by changing state is a
method tied by its postconditions to a specification function; the theorems are about
those functions.

Where the code differs from what its names or comments say, the code is followed:

* `isGREASE` (internal/probe/ja3.go:46) accepts 256 values, not the 16 of RFC 8701: the high
  nibbles need not agree.
* A complete record whose handshake length exceeds the record is "need more" for ever, up
  to the cap (internal/probe/ja3.go:109-112): `NeedMoreExactly`, `StuckForever`,
  `StuckUntilCap`, and `StuckRecord` for an instance.
* The cap is tested before the buffer is parsed (internal/probe/ja3.go:69), so a stream of
  more than 64 KiB can be cut so that a hello that is complete within the cap is still
  refused. `ChunkedVerdict` says exactly when; `CompleteYetRefused` shows it with the reads of
  at most 4096 bytes that the connection loop makes.
* An append to a session that is present but expired goes to the dead session
  (internal/proto/store.go:49-62); a sweep just before it is then visible, and only then
  (`SweepObservable`).
* `Len` is said to count live sessions (internal/proto/store.go:86); it counts the map, expired
  sessions that nobody has removed included: `SizeIsLiveExactly`, `SizeCountsExpired`.
* `setsEqual` (internal/client/dns.go:119) compares multisets, not sets, and only for lists
  of comma-free answers; in general it compares the comma-separated pieces of the sorted lists
  (`ComparisonOfPieces`).
* A probe started with a negative pmtu limit answers no pmtu datagram, while the client
  replaces that limit by 9000, and so reports a blackhole on a healthy path
  (internal/client/pmtu.go:41-44, internal/probe/udp.go:70-76): `RunPmtu`.
* In the second-IP branch of `RunNAT` the inner `r4` shadows the outer one
  (internal/client/nat.go:119), so the judgment always sees false.
* The comment on `TLSSniff` (internal/client/session.go:104) speaks of `<session>.n`; the
  code sends `<session>.1`.

## Model

| member | source | states |
|---|---|---|
| `HelloFormat.EntriesExact` | internal/probe/ja3.go:166-180 | The extension walk accepts a block with a given entry list exactly if the entries, re-encoded, are the block byte for byte: an exact partition, for all inputs. |
| `HelloFormat.LastWins` | internal/probe/ja3.go:178 | What is kept for a type is the data of its last entry. |
| `HelloFormat.ExtDataKeys` | internal/probe/ja3.go:177-178 | Data is kept for a type exactly if the type is in the recorded type list. |
| `HelloFormat.DissectExact` | internal/probe/ja3.go:119-180 | A body is accepted exactly if it is the encoding of a well-formed body with anything behind it; the dissection is unique. |
| `HelloFormat.DecidedIsStable` | internal/probe/ja3.go:91-114 | Once the verdict is not "need more", no further bytes change it or the hello. |
| `HelloFormat.NeedMoreExactly` | internal/probe/ja3.go:92-112 | The parser asks for more exactly in three cases: an incomplete record header, an incomplete record, or a complete record whose handshake message is longer than it. |
| `HelloFormat.StuckForever` | internal/probe/ja3.go:109-112 | In the third case no further bytes ever end the waiting. |
| `HelloBuilder.RoundTrip` | internal/probe/ja3_test.go:25-70 | Parsing the encoding of any builder within its length fields gives its version, ciphers, types and extension data. |
| `HelloBuilder.RoundTripExt` | internal/probe/ja3_test.go:72-126 | An SNI, ALPN, signature algorithm, version, group, point format or raw extension that is the last of its type is read back as the very value it was built from. |
| `HelloBuilder.AbsentExt` | internal/probe/ja3.go:182-187 | Types that were not sent read as empty; version, ciphers and the type list come back in order. |
| `HelloLayout.BuildLayout` | internal/probe/ja3_test.go:25-70 | A built record byte by byte, in numbers: content type 22, message type 1, each length and number high byte first, each field behind its length. |
| `HelloLayout.EntryLayout` | internal/probe/ja3_test.go:43-49 | An extension among any others is its type and length, high byte first, and its data. |
| `HelloLayout.NumberAt` | internal/probe/ja3_test.go:37-39 | A list of 16-bit values holds each at its place, high byte first. |
| `HelloLayout.TypeCodes` | internal/probe/ja3.go:19-24 | On built records: the last entry of type 0x0000 decides the SNI, 0x0010 ALPN, 0x000d signature algorithms, 0x002b versions, 0x000a groups, 0x000b point formats. |
| `HelloLayout.RecordExactly` | internal/probe/ja3.go:91-114 | The verdict on any bytes by the values and places of the record and handshake headers. |
| `HelloLayout.AcceptedExactly` | internal/probe/ja3.go:121-180 | A body is accepted if and only if its lengths, walked from byte 34, stay within it, ciphers and compressions are not empty, ciphers are even, and the extension block is a concatenation of entries. |
| `HelloLayout.SniExactly` | internal/probe/ja3.go:191-217 | A name is read if and only if it is the first entry of type 0 behind well-formed entries of other types in a list of that length; whatever follows is ignored. |
| `HelloLayout.AlpnExactly` | internal/probe/ja3.go:219-240 | Protocols are read if and only if the list holds exactly them, each behind its length. |
| `HelloLayout.U16List2Exactly` | internal/probe/ja3.go:243-257 | Values are read if and only if they stand, high byte first, behind their two-byte length. |
| `HelloLayout.U16List1Exactly` | internal/probe/ja3.go:260-274 | The same behind a one-byte length. |
| `HelloLayout.PointFormatsExactly` | internal/probe/ja3.go:276-286 | Formats are read if and only if they stand behind their one-byte length. |
| `HelloBuilder.U16List` | internal/probe/ja3_test.go:73-80 | The slice filled by index is the length-prefixed encoding, truncation of the length included. |
| `HelloBuilder.U8List16` | internal/probe/ja3_test.go:83-90 | The same with a one-byte prefix. |
| `HelloBuilder.SniData` | internal/probe/ja3_test.go:99-108 | The slice filled by index is the server name extension that `RoundTripExt` reads back. |
| `HelloBuilder.AlpnBytes` | internal/probe/ja3_test.go:110-115 | The appended names are the protocol list that `RoundTripExt` reads back. |
| `HelloBuilder.WriteHello` | internal/probe/ja3_test.go:25-70 | The buffers written front to back hold exactly the record that `RoundTrip` is about. |
| `HelloParser.ReadExtensions` | internal/probe/ja3.go:166-180 | The cursor loop over buffer slices terminates, stays in bounds, fails exactly when the grammar does, and its views show the last data of each type. |
| `HelloParser.ReadSni` | internal/probe/ja3.go:191-217 | The cursor loop returns the first host_name of the grammar, or "" for every malformed list. |
| `HelloParser.ReadAlpn` | internal/probe/ja3.go:219-240 | The cursor loop returns the whole protocol list, or nothing if any name overruns. |
| `HelloParser.ReadU16List2` | internal/probe/ja3.go:243-257 | The loop decodes a two-byte-prefixed list as the grammar does, bad lengths giving the empty list. |
| `HelloParser.ReadU16List1` | internal/probe/ja3.go:260-274 | The same for a one-byte prefix. |
| `HelloParser.ReadPointFormats` | internal/probe/ja3.go:276-286 | The point formats are returned in an array of their own. |
| `HelloParser.BodyByCursor` | internal/probe/ja3.go:121-166 | The cursor arithmetic with its bounds checks and the grammar accept the same bodies and read the same fields. |
| `HelloParser.ParseBody` | internal/probe/ja3.go:119-189 | The imperative body parser, working on a slice of the shared buffer, agrees with the grammar in verdict and in every field. |
| `HelloParser.ParseRecord` | internal/probe/ja3.go:91-114 | The same for the record and handshake headers, all three verdicts included. |
| `HelloParser.HelloParser.Append` | internal/probe/ja3.go:73 | The buffer becomes old content followed by new bytes, in place while the capacity lasts, else in a new array. |
| `HelloParser.HelloParser.Feed` | internal/probe/ja3.go:68-85 | While undecided the buffer is the concatenation of what was fed; the verdict is that of the whole, and a refusal beyond 65536 bytes; every verdict empties the buffer; reuse of the array overwrites from the front. |
| `HelloParser.FeedMore` | internal/probe/ja3.go:68-85 | Aliasing safety: every field of a returned hello but the raw extension data is unchanged by any later sequence of feeds into the reused array. |
| `HelloParser.StaleView` | internal/probe/ja3.go:178 | The exception is real: for whatever hello a feed returns and each of its non-empty raw extension data, there is a next feed after which that data reads differently. |
| `HelloParser.HandleTlsConn` | internal/probe/tls.go:21-37 | The connection loop computes the outcome of `RunChunks` on the reads it makes. |
| `HelloParser.ChunkedVerdict` | internal/probe/tls.go:21-37 | For every stream and every cutting: the verdict is that of parsing the whole stream at once, except exactly when some read takes a still undecided buffer over the cap. |
| `HelloParser.DecidedNeverOverflows` | internal/probe/ja3.go:69-83 | Once decided, nothing that follows can meet the cap. |
| `HelloParser.FragmentationIndependence` | internal/probe/ja3.go:55-85 | Streams of at most 64 KiB give the same verdict and the same hello however they are cut. |
| `HelloLimits.StuckRecord` | internal/probe/ja3.go:109-112 | Two nine-byte records of that kind. |
| `HelloLimits.StuckUntilCap` | internal/probe/tls.go:21-37 | A connection that begins with such a record, however it is cut, ends undecided, or refused if and only if it sends more than the cap. |
| `HelloLimits.CapDependsOnCutting` | internal/probe/ja3.go:69-72 | For every hello that is complete within the cap and every further bytes beyond it: refused if its end is read together with them, accepted if it is read alone. |
| `HelloLimits.CompleteYetRefused` | internal/probe/tls.go:22-26 | A concrete hello of 64056 bytes and reads of at most 4096 bytes that are refused although the hello was complete within the cap. |
| `Fingerprint.GreaseNibbles` | internal/probe/ja3.go:46 | A value is skipped as GREASE exactly if both bytes have the low nibble 0xA, whatever the high nibbles. |
| `Fingerprint.GreaseValues` | internal/probe/ja3.go:45-46 | All sixteen RFC 8701 values are skipped, and at least one that is not among them. |
| `Fingerprint.Ja3Exact` | internal/probe/ja3.go:291-327 | Two hellos have the same JA3 text if and only if they agree on version, ordered non-GREASE ciphers, extensions and groups, and point formats. |
| `FingerprintReading.Ja3Reads` | internal/probe/ja3.go:291-327 | The hashed text of every hello is five comma-free parts: the version, and the ciphers, extensions, groups without the GREASE ones and all point formats, in their order, as decimals without leading zeros between dashes. |
| `Fingerprint.MaxVersionIsMax` | internal/probe/ja3.go:370-376 | The version used is the greatest of the legacy version and the non-GREASE versions offered. |
| `Fingerprint.Ja4AlpnHexEnds` | internal/probe/ja3.go:404-414 | Where an end of the first protocol is not alphanumeric, its two characters are the first byte's high and the last byte's low hex digit. |
| `Fingerprint.SortedHexExact` | internal/probe/ja3.go:422-432 | A sorted, joined hex list is a canonical form of the multiset of its values. |
| `Fingerprint.CipherTextExact` | internal/probe/ja3.go:422-432 | Two hellos have the same cipher text if and only if their non-GREASE ciphers agree as multisets. |
| `Fingerprint.ExtTextExact` | internal/probe/ja3.go:436-457 | Two hellos have the same extension text if and only if the counted types agree as multisets and, unless there are none, the signature algorithms agree in order. |
| `Fingerprint.Ja4Shape` | internal/probe/ja3.go:332-351 | Every JA4 has 36 characters, with underscores at positions 10 and 23 and nowhere else. |
| `Fingerprint.SentinelHidesNothing` | internal/probe/ja3.go:444-446 | For every parsed hello with signature algorithms, their extension is counted, so the all-zero sentinel never hides them. |
| `FingerprintReading.VersionReads` | internal/probe/ja3.go:370-399 | For every offer: which of the nine codes stands, if and only if the greatest of the legacy version and the non-GREASE offers is that version, and "00" if it is none of them. |
| `FingerprintReading.CountReads` | internal/probe/ja3.go:353-368 | Two digits for the number of values that are not GREASE, or for 99. |
| `FingerprintReading.ProtocolReads` | internal/probe/ja3.go:404-418 | The two protocol characters in every case: none, ends that are ASCII letters or digits, other ends. |
| `FingerprintReading.SortedHexReads` | internal/probe/ja3.go:428-431 | The sorted text lists, as four lower-case digits each and between commas, exactly the values given, ascending and as often. |
| `FingerprintReading.Ja4Reads` | internal/probe/ja3.go:332-467 | The JA4 of every hello, character by character: where each part stands, which values each counts or lists, what is hashed and which digits of the hash are kept, and when the zeros stand instead. |
| `FingerprintWriter.WriteDecList` | internal/probe/ja3.go:315-327 | The loop writes behind what the builder holds exactly the joined decimals of the non-GREASE values. |
| `FingerprintWriter.WriteByteDecList` | internal/probe/ja3.go:306-313 | The same for bytes, none skipped. |
| `FingerprintWriter.Ja3` | internal/probe/ja3.go:291-304 | The hash of a text that reads as `Ja3Reads` says; it is the text that `Ja3Exact` is about. |
| `FingerprintWriter.CountNonGrease` | internal/probe/ja3.go:353-364 | The loop counts the non-GREASE values, up to 99. |
| `FingerprintWriter.Ja4Version` | internal/probe/ja3.go:370-399 | The code reads as `VersionReads` says. |
| `FingerprintWriter.CiphersHexSorted` | internal/probe/ja3.go:422-432 | Filter, format, sort and join give the text that `CipherTextExact` is about. |
| `FingerprintWriter.Ja4ExtensionHash` | internal/probe/ja3.go:436-457 | The same for the text of `ExtTextExact`, with the sentinel exactly when nothing is counted. |
| `FingerprintWriter.Ja4` | internal/probe/ja3.go:332-351 | The result reads as `Ja4Reads` says, part by part; it is the JA4 that `WireOrderIndependence` is about. |
| `Ja4Order.WireOrderIndependence` | internal/probe/ja3.go:332-457 | On the wire: two hellos of one legacy version whose ciphers and extension types agree as multisets of non-GREASE values, in whatever order, with whatever GREASE and whatever other extension data, have the same JA4 texts once parsed if and only if SNI, ALPN, signature algorithms and supported versions read the same; the JA4 is then the same. |
| `Ja4Order.SameEntriesRead` | internal/probe/ja3.go:167-187 | They do whenever the non-GREASE extensions agree as multisets up to GREASE versions and do not contradict each other within a type. |
| `Ja4Order.OrderFreeExactly` | internal/probe/ja3.go:332-457 | The exact condition, on the wire: every rearrangement of ciphers and extension entries is parsed into a hello with the same JA4 texts if and only if repeated entries of SNI, ALPN, signature algorithms and supported versions each read alike. |
| `Ja4Order.PermutationIndependence` | internal/probe/ja3.go:332-457 | In particular whenever none of those four types is repeated, whatever else is; the rearranged hello fits the wire again. |
| `Ja4Order.Ja4AExact` | internal/probe/ja3.go:332-343 | Two hellos have the same readable part if and only if they agree on version code, SNI presence, both counts and protocol characters. |
| `Ja4Order.RepeatedTypesShowTheirOrder` | internal/probe/ja3.go:178 | Two records, built and parsed, that differ in the order of two ALPN extensions only have different JA4s. |
| `SessionId.ValidSessionId` | internal/proto/uuid.go:22-53 | True if and only if the string is 36 characters with dashes at 8, 13, 18 and 23 and hex digits of either case elsewhere, or 32 such digits. |
| `SessionId.NewId` | internal/proto/uuid.go:9-18 | The array overwritten in place is formatted to the identifier that the next rows are about. |
| `SessionId.GeneratedIdIsValid` | internal/proto/uuid.go:9-18 | For all 16 random bytes: accepted by the validator, 36 characters, version digit 4, a variant digit of section 5.4 of RFC 9562, no dot. |
| `SessionId.GeneratedIdReads` | internal/proto/uuid.go:15-17 | Each random byte stands, as two digits, at its place in the identifier, but for the four version and two variant bits. |
| `SessionId.GeneratedIdInjective` | internal/proto/uuid.go:9-18 | Two identifiers are equal if and only if the 122 other bits are. |
| `SessionId.SessionOfExact` | internal/probe/tls.go:43-46 | A server name yields a session if and only if it is that valid identifier, a dot, and anything. |
| `TlsSniffer.RecordTls` | internal/probe/tls.go:42-70 | Exactly one observation, with both fingerprints, is appended to the session the SNI names, and nothing if it names none. |
| `TlsSniffer.ServeTls` | internal/probe/tls.go:16-70 | What a connection leaves in the registry is a function of its reads: through buffer, cursors and builders the stored fingerprints are those of the specification, and a session evicted for them is an oldest live one. |
| `TlsSniffer.ConnectionIsRecorded` | internal/probe/tls.go:67-69 | After a connection with a session the session's newest observation is the connection's, or the session is full at 4096 and unchanged. |
| `TlsSniffer.ObsIsOfConnection` | internal/probe/tls.go:47-61 | That observation holds the hash of a text that reads as the JA3 in its JA3, a JA4 that reads as the JA4, the server name, and the peer's addresses. |
| `TlsSniffer.SessionSurvivesTls` | internal/client/session.go:116 | For all 16 random bytes, a hello with the generated identifier and ".1" as its server name yields, however it is cut on the way, exactly that identifier as the store key. |
| `Dns.SortedCopy` | internal/client/dns.go:124-128 | A sorted permutation of the argument. |
| `Text.LexLeExactly` | internal/client/dns.go:126 | The order it is sorted by: a prefix first, else the smaller byte where two strings first differ. |
| `Dns.SetsEqual` | internal/client/dns.go:119-122 | True, for comma-free non-empty answers, if and only if the lists agree as multisets; for any answers, if and only if the sorted lists agree in their comma-separated pieces. |
| `Dns.ComparisonExact` | internal/client/dns.go:119-122 | For comma-free answers the comparison holds if and only if the lists agree as multisets, or one is empty and the other one empty string. |
| `Dns.ComparisonIsMultisetEquality` | internal/client/dns.go:111-122 | For the non-empty answers that reach it, it is multiset equality. |
| `Dns.ComparisonOfPieces` | internal/client/dns.go:119-122 | For all answers: the comparison holds if and only if the sorted lists have the same comma-separated pieces in order, no piece and one empty piece looking alike. |
| `Dns.ComparisonLimits` | internal/client/dns.go:119-122 | An answer with a comma can pass for two answers, and repetitions count. |
| `Registry.CapIsKept` | internal/proto/store.go:42-64 | With a positive cap an append never leaves more sessions than it, and the session just appended to is never the victim. |
| `Registry.AppendSeesLiveOnly` | internal/proto/store.go:49-62 | Expired sessions still in the map do not influence what an append does to the live ones. |
| `Registry.GetKeepsLive` | internal/proto/store.go:68-84 | A get answers from the live sessions and, deleting or not, leaves them as they are. |
| `Registry.LiveExactly` | internal/proto/store.go:100-109 | Who is live, in numbers: everyone without a positive ttl, else up to and with the ttl. |
| `Registry.AppendExactly` | internal/proto/store.go:42-64 | What an append leaves, in numbers: the observation behind fewer than 4096 others, the creation time, and which other sessions stay. |
| `Registry.GetExactly` | internal/proto/store.go:68-84 | What a get leaves and answers: an expired session is deleted and not shown. |
| `Registry.SweepObservable` | internal/proto/store.go:42-63 | A sweep just before an append can be seen if and only if the append is to a session that is present but expired. |
| `Registry.SizeIsLiveExactly` | internal/proto/store.go:86-91 | The size of the map is the number of live sessions if and only if none of its sessions has expired. |
| `Registry.SizeCountsExpired` | internal/proto/store.go:86-91 | A lone session that has expired unnoticed is counted, for every positive ttl. |
| `RegistryRuns.SweepsAreInvisible` | internal/proto/store.go:42-109 | Two runs of the same calls with the same choice among ties, sweeps anywhere in either, give every get the same answer and leave the same live sessions, and one evicts legally if and only if the other does, as long as neither appends to a present but expired session. |
| `RegistryRuns.NoTiesNoChoice` | internal/proto/store.go:42-123 | When no two calls share a clock reading nothing need be matched: any two legal runs of the same calls, sweeps anywhere in either, give the same answers and leave the same live sessions. |
| `RegistryRuns.LazyIsEager` | internal/proto/store.go:66-98 | In particular expiry on read alone and any amount of sweeping agree, legality of evictions included. |
| `RegistryRuns.DeadAppendsDoNotTransfer` | internal/proto/store.go:42-109 | That both runs must be free of appends to dead sessions is needed: two runs where a sweep prevents such an append and where it brings one about. |
| `RegistryRuns.CapHoldsInRuns` | internal/proto/store.go:42-123 | The cap holds in every reachable registry, for any clock and any choice among equally old victims. |
| `RegistryRuns.SnapshotsAreHistory` | internal/proto/store.go:57-63 | In every reachable registry a session holds exactly the first 4096 observations appended since its creation, in order. |
| `RegistryRuns.SnapshotsOnlyGrow` | internal/proto/store.go:57-84 | While a session stays in the registry, for any clock, its creation time is kept and its observations only gain at the end. |
| `RegistryRuns.SameCreationGrows` | internal/proto/store.go:68-84 | What two snapshots alone tell a client: once the clock has moved past the creation, equal creation times mean that the later one extends the earlier, whatever happened to the session between. |
| `RegistryQueue.RunRefines` | internal/proto/store.go:42-123 | The live sessions of every legal run are mirrored by a bounded queue driven by the creations the registry makes: expiry drops a prefix, and the head leaves only when nothing expired made room. |
| `RegistryQueue.RegistryIsQueue` | internal/proto/store.go:42-123 | From an empty registry under a strictly increasing clock, whatever is called, the live sessions are a suffix of the sequence of creations, within the cap. |
| `Store.Store.EvictExpired` | internal/proto/store.go:100-109 | Whatever the order of the walk, exactly the expired sessions go. |
| `Store.Store.EvictOldest` | internal/proto/store.go:111-123 | Exactly one session goes, and none is older than it. |
| `Store.Store.Append` | internal/proto/store.go:42-64 | The whole map after an append, with the victim an oldest live session whenever one is needed; an invalid identifier changes nothing. |
| `Store.Session.Add` | internal/proto/store.go:60-62 | The slice gains the observation, in place while the capacity lasts, else in a new array. |
| `Store.Store.Get` | internal/proto/store.go:68-84 | The snapshot is a new object with an array of its own, neither of them part of the registry, holding the session's history; unknown, invalid and expired identifiers answer alike. |
| `Store.Store.Len` | internal/proto/store.go:87-91 | The number of sessions in the map, expired ones included. |
| `Store.Store.GC` | internal/proto/store.go:94-98 | Leaves exactly the live sessions. |
| `Store.Replay` | internal/proto/store.go:42-123 | Any sequence of calls on the object is a legal run of the value model with the same answers, so the run theorems hold of it, and no call, though appends write into arrays in place, changes a snapshot handed out before. |
| `UdpPayload.ObjectExact` | internal/probe/udp.go:48-57 | The object reader accepts exactly what can be written, and reads it back: on flat objects of plain strings, decoding and encoding are inverse. |
| `UdpPayload.PayloadExactly` | internal/probe/udp.go:48-57 | Whatever fields a datagram holds, in whatever order and number: it decodes to its last session and its last kind, their names in any case, if and only if the session is valid. |
| `UdpPayload.RequestReadsBack` | internal/client/nat.go:79-80 | The client's requests decode on the probe to their own session and kind. |
| `UdpProbe.ReactExactly` | internal/probe/udp.go:63-118 | For every configuration: which kinds are answered up to which limit, from which socket, and every field of what is recorded, the origin of the reply told as same, other-port or other-ip. |
| `UdpProbe.HandleUdpArrival` | internal/probe/udp.go:63-118 | A datagram is answered if and only if it decodes to echo, reach or nat within the limit or to pmtu within its own, with its own bytes to its source, nat from the NAT socket and the others from the arrival socket, and exactly one observation is stored; else it is dropped without a trace. |
| `UdpProbe.ServeUdp` | internal/probe/udp.go:25-42 | Over any sequence of reads, the replies and the appends are those of the handled datagrams, in order. |
| `UdpSystem.StepKeepsInv` | internal/probe/udp.go:97-98 | Every step of client, translator, network, probe and other traffic keeps the invariant of the next row. |
| `UdpSystem.ReplyImpliesRecorded` | internal/probe/udp.go:97-98 | In every reachable state each reply owed, in flight or received carries the exact bytes of a datagram that was sent and whose observation was stored before, as the newest of its session unless the session was full. |
| `UdpSystem.RepliesComeFromTheirSocket` | internal/probe/udp.go:80-98 | In every reachable state a reply to nat comes from the NAT socket, and any other from the socket that the datagram it answers was sent to. |
| `UdpSystem.RecordDescribesDatagram` | internal/probe/udp.go:101-118 | The observation names the datagram's session, kind, source, arrival port and size. |
| `UdpSystem.ArrivalIsStored` | internal/probe/udp.go:97 | With room in the session, the observation is appended to what the session held; the invariant rests on it. |
| `UdpSystem.WindowStep` | internal/client/nat.go:56-77 | Between a send and its pull, under any interleaving, the session gains only observations of that send and of other channels, and a reply is present only if the send was recorded. |
| `NatTest.Send` | internal/client/nat.go:56-77 | It succeeds if and only if the write went out, the history could be pulled and holds a UDP observation at that port of that kind; then source and reply origin are those of the newest such observation. |
| `NatTest.LastIndexIsLast` | internal/client/nat.go:70-75 | The place the scan stops at is a match, and no later one is. |
| `NatTest.ScanOfWindow` | internal/client/nat.go:70-75 | After such a window the scan finds this send's observation, standing behind all that was there before the send, if there is one, else what an earlier send left. |
| `NatTest.SendScansExactly` | internal/client/nat.go:56-77 | The same for whole runs of the system from a quiet state; there is one whenever a reply was there to be read at any moment since the send. |
| `NatTest.ReplyMeansOwnObservation` | internal/client/nat.go:61-75 | If a reply came in after the send, read since or not, the scan finds an observation made after the send, by its place in the history, and it is that send's, with its source as the translator mapped it. |
| `NatTest.PullExactly` | internal/client/session.go:56-82 | A pull returns exactly what the session holds if it is present and not expired, and fails otherwise. |
| `NatTest.RunNat` | internal/client/nat.go:34-134 | Succeeds if and only if each exchange does; facts and judgment are those of the right exchanges. |
| `NatTest.OutcomeReads` | internal/client/nat.go:82-155 | From histories to label: which observation at which port each exchange needs, and which of the five labels then stands, if and only if what. |
| `NatTest.JudgmentExactly` | internal/client/nat.go:141-156 | When each label and high confidence is given, for all inputs of the judgment. |
| `NatTest.SourceIsMapping` | internal/client/nat.go:83-104 | The source found by a measurement that is not lost is the translator's mapping for that destination, then and ever after. |
| `NatTest.MappingVerdict` | internal/client/nat.go:141-156 | For any translator with persistent mappings: symmetric is said if and only if the external ports differ (given a translated address), direct if and only if the address is untranslated; mappings that ignore the destination port are never called symmetric. |
| `NatTest.RunVerdict` | internal/client/nat.go:82-133 | The same of the label in whatever `RunNat` returns, under any loss, for two measurements each of which is not lost or is the first echo of its session at its port: a lost exchange then fails and never misjudges. |
| `NatBox.OneAddressOneMapping` | internal/client/nat.go:136-140 | Only a mapping that depends on the destination port can differ between two ports of one host (section 4.1 of RFC 4787). |
| `NatBox.EndpointIndependence` | internal/client/nat.go:136-140 | A mapping by the inner address alone is the same for all destinations. |
| `Pmtu.BuildPayload` | internal/client/pmtu.go:51-62 | The payload filled in place has exactly the size asked for: the head with the identifier, padding and tail at their places, without overlap or gap. |
| `Pmtu.BoundsExactly` | internal/client/pmtu.go:41-53 | The search runs from 39 bytes more than the identifier to the probe's limit, or 9000 where that is not from 1 to 9000. |
| `Pmtu.PayloadReadsBack` | internal/client/pmtu.go:49-62 | Every payload decodes on the probe to the client's session and kind pmtu. |
| `Pmtu.ProbeAnswersExactly` | internal/client/pmtu.go:41-53 | The probe answers a payload of the search, from the arrival socket, if and only if its limit is positive. |
| `Pmtu.Search` | internal/client/pmtu.go:64-81 | For any oracle: sizes accepted are at most the result and sizes rejected above it, the result is the cap or has a rejected neighbour, each send is in the middle of what is open, the facts are what the socket said, within the budget of sends; on an error, a send that such a search gets to fails. |
| `Pmtu.BisectsReads` | internal/client/pmtu.go:65-80 | Each size tried is half of the sum of what the facts before it leave open at both ends. |
| `Pmtu.BisectionIsForced` | internal/client/pmtu.go:64-81 | For a given oracle two searches make the same sends with the same facts as far as both go. |
| `Pmtu.FailureIsExact` | internal/client/pmtu.go:70-72 | Where the search runs to its end, no send that it could get to fails. |
| `Pmtu.Log2IsFloor` | internal/client/pmtu.go:67 | The budget of sends, Log2 of the number of sizes plus one, uses the floor of the binary logarithm. |
| `Pmtu.SearchFindsGreatest` | internal/client/pmtu.go:64-81 | For a monotone path the result is the greatest size that fits, or 0 if none does. |
| `Pmtu.HealthyPathAnswers` | internal/client/pmtu.go:83-94 | On a path that delivers both ways the check is answered if and only if the probe's limit is positive or an earlier reply is queued. |
| `Pmtu.RunPmtu` | internal/client/pmtu.go:30-103 | An error if and only if a send that the search gets to fails; else result and note are those of the search, and a blackhole is reported if and only if a size was accepted, its last send succeeds, no earlier reply is queued, and the path loses something or the probe's limit is not positive. |

## Left out

- Sockets, HTTP, deadlines, TTL ancillary data and `TCP_INFO`: their outcomes are parameters or steps.
- MD5 and SHA-256: parameters; nothing is said about collisions of the final hashes.
- General JSON. UdpPayload.ParseUdpPayload reads flat objects of plain unescaped printable strings without white space; names are matched with ASCII case folding only.
- UdpPayload.ObjectExact: covers those flat objects only, for the same reason.
- UdpProbe.HandleUdpArrival: drops datagrams in other JSON forms (white space, escapes, other value types), which the probe may record; the client's own payloads are all of the form covered.
- HelloParser.FeedMore: does not cover the raw extension data, which still points into the buffer; `StaleView` shows that it cannot.
- RegistryRuns.LazyIsEager: asks of both runs that no append is to a dead session; sweeping changes which dead sessions are present, so neither run's freedom from them implies the other's (`DeadAppendsDoNotTransfer`).
- Goroutine interleaving inside a call: the mutex makes calls atomic, and the model starts from there.
- Observations as objects: the Go slices hold pointers to observations, which nobody writes to after they are stored; here the arrays hold the values.
- Identifiers, times, TTLs and `TCP_INFO` inside observations: no modelled decision reads them.
- Second-IP probes as a system: `UdpSystem` has one probe address. `RunNat` and the probe's handler keep the branch.
- The filter half of the NAT label (port-restricted or open): the echo to the NAT port opens that port's pinhole before the filter is tested, so the label says nothing certain.
- NatTest.MappingVerdict: about translators whose mappings persist for the measurement; a mapping that times out between two sends is outside it.
- Which reply the blackhole check reads: it accepts any queued datagram, so only the absence of a false alarm is stated.
- Report building, text rendering, the command line, reputation and DoH lookups, route and resolver parsing, attribution notes: field copying and single-branch logic.
- Server start and shutdown wiring, and the retry loop of `Pull`.
