# Verified model of the protocol relays and probes

A Dafny 4.11 model, with machine-checked properties, of the parts of the Identity Protocol
Debugger's api that read bytes from strangers, decide which addresses may be dialled, or run
as event-driven state machines. `dafny verify dfyconfig.toml` checks all of it.

## What is modelled

Four groups, one module to a concern; `Bytes`, `Text`, `TextCase`, `Bits` and `Timers` hold what
they share.

- **Address policy** (`api/ssrf_guard.js`). `SsrfAddresses` is the two literal parsers,
  `SsrfSpelling` the grammar of IPv6 spellings they are proved against, `SsrfRanges` the mask
  loop and what it means as integers, `SsrfGuard` the range grammar and the block-list or
  allow-list decision, `SsrfDefaults` what the default list blocks, `SsrfCase` that letter case
  does not matter, `SsrfRewriting` which rewritings of a configuration leave the decision alone.
- **Byte codecs.** `Krb5Frame` is the Kerberos pre-flight and TCP framing, `TlsResponse` chunked
  decoding and response reading, `TlsOid` the walk to a certificate's signature algorithm,
  `SpiffeDer` and `SpiffePem` the splitting of concatenated DER and the PEM made of it,
  `SpiffeJson` the well-known protobuf types and `SpiffeWrap` the rewriting of a request in place;
  `LdapGrammar` the LDAP URLs that `LdapClient` reads.
- **Event machines.** `Krb5Relay`, `TlsHandshake`, `SpiffeInvoke` and the search half of
  `LdapClient`. Each has a class whose methods are the source's handlers over the variables
  they share, a pure step function the methods are proved equal to, and theorems about every
  run of it.
- **A bounded, expiring store** (`api/ssf_receiver.js`). `SsfReceiver` is the map of inboxes
  changed in place; it refines `SsfStore`, where every run is shown to refine the log a caller
  could keep from the answers alone.

## How to read it

- Loops and handlers are methods; each is proved equal to a function, and the lemmas say what
  that function means in terms that do not mention it: a grammar, an integer, an encoder, a
  scan of the event list, a log.
- Errors are small enumerations, not texts. An exception or a null is `Err` or `None`.
- Timers carry the time they are due (`Timers`). "On an ideal clock" means that no event comes
  after an armed timer is due and that a timer goes off exactly then.
- Results about runs are first proved from any state that satisfies the invariant, then stated
  from the start of the call; the table names the latter.
- `net.isIP` and `Number` on a prefix length are parameters (`SsrfGuard.Runtime`). Where a
  theorem needs `net.isIP` to recognise a spelling, it says so in a precondition.
- The address policy is a parameter of the relay; `Krb5Relay.AllowListBoundsDialling` and
  `Krb5Relay.BlockListBoundsDialling` put the guard in its place.
- `call.cancel()` is taken to emit nothing before it returns: `invoke` sets `stopped` before it
  calls it (api/spiffe_client.js:1651-1675), and only an event inside that call could find
  `stopped` set and the promise still open.
- `hide` statements keep definitions a proof does not need away from the solver.

## Where the code differs from its own account of itself

Each of these is a theorem below, stated with the condition under which the code does meet it.

- The relay's two timers start together, so they are not additive: the shorter one shadows the
  longer. Some run ends in a connect timeout if and only if the call goes over TCP, has an
  address it may dial and has connectTimeout at most callTimeout
  (`Krb5Relay.ConnectTimeoutExactly`), and a dead address is refused when the shorter of the two
  is spent (`Krb5Relay.DeadAddressFails`). A whole call answers within
  connectTimeout + callTimeout, one connectTimeout less than the comment at
  api/krb5_relay.js:253-257 allows.
- The rule that every path answers (api/krb5_relay.js:46-50) fails for exactly the runs on which
  the lookup of a name first calls back without an error and with an empty list or no value
  (`Krb5Relay.WedgedExactly`). The lookup can be replaced (api/krb5_relay.js:143-149) but is only
  by a test; that `dns.lookup` ever answers a host that is not empty this way is not shown.
- The clamp at api/ssf_receiver.js:361-367 is said to let the next poll catch up. Once an inbox
  is full it never does (`SsfStore.CaughtUpReaderIsStuck`, `SsfStore.CursorIsExact`), under any
  settings (`SsfStore.LateEventIsNotShown`).
- The refusal for the handshake deadline says that the connection was accepted
  (api/tls_probe.js:994-999). It can be given for one that never was if and only if callTimeout is
  at most connectTimeout (`TlsHandshake.HandshakeTimeoutExactly`).
- The refusal of an LDAP port promises a number (api/ldap_client.js:210-212). Anything may follow
  the digits of a port outside brackets (`LdapGrammar.PortMayCarryJunk`,
  `LdapGrammar.AcceptsExactly`).
- A response cut off before its blank line is reported with `bodyComplete` true
  (`TlsResponse.ResponseOfCut`).
- An OID 2.40 and above is reported with a first arc of 3 to 6 (`TlsOid.PartsInvertEncoding`).
- A CIDR entry and its first-last pair differ when an end is IPv4-mapped
  (`SsrfRewriting.PairEntryIsSame`), and a decision with them
  (`SsrfRewriting.PairRewriteCanChangeDecision`).
- Wrapping fields twice is not wrapping them once for every list of paths
  (`SpiffeJson.IdempotentExactly`); it is for those in use.
- The branch of `invoke` that excuses CANCELLED is never taken before settlement
  (`SpiffeInvoke.SettlesWithFirstVerdict`), on the assumption about `cancel` above.
- `ldap://[]` is not refused for naming no host: its host is read as `[]`
  (`LdapClient.ReadsEveryUrl`).
- `decodeChunked` need not end: on the size line -6 it never does
  (`TlsResponse.NegativeSizeStalls`). It ends on every buffer whose sizes are not negative
  (`TlsResponse.LoopGives`).
- The IPv6 parser lets a double colon stand for no group at all, which section 2.2 of RFC 4291
  does not; `SsrfSpelling.Legal` follows the code.

## Model

| member | source | states |
|---|---|---|
| SsrfAddresses.IPv4AcceptsExactly | api/ssrf_guard.js:148-170 | An IPv4 literal is accepted if and only if it is four octets joined by dots, each of one to three digits and at most 255; the answer is their values in order |
| SsrfAddresses.ParseIPv4 | api/ssrf_guard.js:148-170 | The early-exit loop over the four parts computes that reading |
| SsrfAddresses.ParseIPv6 | api/ssrf_guard.js:174-256 | The whole parser, with its zone cut and expansion, computes the reading that the two theorems on spellings are about |
| SsrfAddresses.TailGroups | api/ssrf_guard.js:239-248 | The second loop, which pushes each group and truncates it away again, collects exactly the groups after the double colon and leaves the first half as it was |
| Text.DigitIsPosition | api/ssrf_guard.js:221 | A hex digit is worth its position in the alphabet of digits, in either case, and nothing else is a digit |
| SsrfSpelling.LegalMeans | api/ssrf_guard.js:174-256 | A legal spelling in plain terms: groups of one to four characters out of 0-9, a-f and A-F, a dotted quad of four octets, and eight groups in all, or up to eight around a double colon |
| SsrfSpelling.ReadsEverySpelling | api/ssrf_guard.js:174-256 | Every legal spelling (groups in any case with leading zeros, a double colon over any zero run, dotted-quad tail, zone) is read as exactly the sixteen bytes it denotes |
| SsrfSpelling.AcceptsExactlySpellings | api/ssrf_guard.js:174-256 | A string is accepted with answer b if and only if some legal spelling prints as it and denotes b: nothing but spellings gets in |
| SsrfCase.IPv6Same | api/ssrf_guard.js:174-256 | Writing the letters of a literal in the other case, letter by letter, never changes what it is read as, nor whether it is read |
| SsrfCase.CaseKeepsDecision | api/ssrf_guard.js:483-515 | So no decision depends on the case of an address, as long as net.isIP does not |
| SsrfRanges.CompareBytes | api/ssrf_guard.js:300-310 | The comparison loop returns the sign CompareIsOrder interprets |
| SsrfRanges.CompareIsOrder | api/ssrf_guard.js:300-310 | Comparing two addresses byte by byte is comparing the big-endian numbers they spell |
| SsrfRanges.WithinRange | api/ssrf_guard.js:378-401 | The membership test, mask loop included, decides the relation the next three rows characterise |
| SsrfRanges.MaskIsDivision | api/ssrf_guard.js:390-400 | For every pair of addresses and every prefix length, the byte masks match if and only if the two numbers are equal after division by 2^(bits - prefix) |
| SsrfRanges.CidrIsItsPair | api/ssrf_guard.js:378-401 | A block holds an address if and only if the span from its first to its last address does |
| SsrfRanges.NestedOrDisjoint | api/ssrf_guard.js:378-401 | Two blocks of one family that share an address are nested: the longer prefix lies wholly inside the shorter |
| SsrfGuard.Guard.constructor | api/ssrf_guard.js:405-481 | Loading keeps exactly the entries that parse, in order, in both modes; a non-empty allow-list switches the policy on whatever the other setting says |
| SsrfGuard.LoadsEach | api/ssrf_guard.js:455-476 | Every entry that parses is loaded whatever stands around it, and nothing else is |
| SsrfGuard.BareEntryRefused | api/ssrf_guard.js:355-361 | An entry with neither a dash nor a slash is refused, a bare address too |
| SsrfGuard.PairParsesExactly | api/ssrf_guard.js:326-353 | A first-last pair parses if and only if both ends are addresses of one family and the first is, as a number, not after the last; otherwise the refusal names which failed |
| SsrfGuard.BlockParsesExactly | api/ssrf_guard.js:355-376 | A block parses if and only if its address is one and its length a number within it |
| SsrfGuard.Guard.BlockedRangeFor | api/ssrf_guard.js:483-515 | The two search loops give the decision of the specification for the loaded configuration |
| SsrfGuard.DecidesExactly | api/ssrf_guard.js:483-515 | From the configured texts to the decision: an address is refused by an allow-list if and only if no entry that parses holds it, by a block-list (the default one if none is given) if and only if some entry does; a name by neither |
| SsrfGuard.BlockListNamesFirst | api/ssrf_guard.js:503-512 | A block-list names the first loaded range that holds the address |
| SsrfDefaults.DefaultsExactly | api/ssrf_guard.js:126-139 | With nothing configured, exactly the addresses of the default blocks are refused, each block told by the leading bytes of its addresses |
| SsrfGuard.SixIsReduced | api/ssrf_guard.js:269-283 | What net.isIP calls IPv6 is judged as the last four bytes under ::ffff:0:0/96 and as itself otherwise |
| SsrfGuard.OthersAreTried | api/ssrf_guard.js:261-298 | What net.isIP calls IPv4 is read as nothing else; what it calls neither is read as IPv4 if it can be, then as IPv6 without the reduction |
| SsrfGuard.OctetsAreIPv4 | api/ssrf_guard.js:283-291 | Four octets joined by dots are judged as that IPv4 address even when net.isIP does not know the text, as for 127.0.0.01 |
| SsrfGuard.OctetsDecide | api/ssrf_guard.js:283-291 | So two texts of the same octets are decided alike |
| SsrfGuard.ModesAreDual | api/ssrf_guard.js:483-515 | Over one non-empty list, allow-list mode refuses what block-list mode permits for exactly the inputs that are addresses; a name is passed by both |
| SsrfGuard.NoUsableEntry | api/ssrf_guard.js:443-515 | A list with no usable entry refuses every address as an allow-list and none as a block-list |
| SsrfGuard.RefusalsAreTruthy | api/ssrf_guard.js:450-515 | A refusal is never the empty string, which callers would read as permission |
| SsrfGuard.RewritingKeepsDecision | api/ssrf_guard.js:483-515 | Replacing any entries by others holding the same addresses changes no refusal, in either mode |
| SsrfRewriting.MappedSpellingReduces | api/ssrf_guard.js:261-298 | A spelling of an IPv4-mapped address is judged as the IPv4 address it reaches if and only if net.isIP calls it IPv6; the fallback branch leaves the sixteen bytes alone |
| SsrfRewriting.MappedSpellingKeepsDecision | api/ssrf_guard.js:261-298 | No recognised spelling of a mapped address changes what is decided about the address |
| SsrfRewriting.BlockEntryParses | api/ssrf_guard.js:355-376 | A printed address, a slash and a length parse to that block if and only if the length is within the address, and are otherwise refused for the length |
| SsrfRewriting.PairEntryIsSame | api/ssrf_guard.js:326-376 | A CIDR entry rewritten as its first-last pair holds the same addresses if and only if neither end is IPv4-mapped |
| SsrfRewriting.PairRewriteKeepsDecision | api/ssrf_guard.js:326-376 | Under that condition the rewriting, anywhere in a list, changes no decision in either mode |
| SsrfRewriting.MappedEndChangesDecision | api/ssrf_guard.js:326-376 | Without that condition, for every entry of a block whose end is mapped: it parses, its pair is refused for mixing families, and a block-list of one refuses an address that a block-list of the other permits |
| SsrfRewriting.PairRewriteCanChangeDecision | api/ssrf_guard.js:269-283 | There is such an entry: the block ::fffe:0:0/95, written out |
| Krb5Frame.ReadOuterTlv | api/krb5_frame.js:94-136 | The header reader with its length loop computes the specification OuterTlv |
| Krb5Frame.OuterTlvReads | api/krb5_frame.js:94-136 | Any tag followed by a definite length field of at most four bytes is read as exactly the length the field spells, whatever follows |
| Krb5Frame.HeaderRefusals | api/krb5_frame.js:94-136 | Each refusal of a header if and only if its own cause: fewer than two bytes, an indefinite length, more than four length bytes, or fewer than announced; it is read if and only if a length field follows the tag |
| Krb5Frame.FillsInput | api/krb5_frame.js:145-164 | The announced total equals the input length if and only if the input is one whole element |
| Krb5Frame.KdcAcceptsExactly | api/krb5_frame.js:167-195 | The KDC pre-flight accepts exactly one whole AS-REQ or TGS-REQ of at most 65536 bytes, and nothing passes both pre-flights |
| Krb5Frame.ServiceAcceptsExactly | api/krb5_frame.js:215-292 | The service pre-flight accepts exactly a whole AP-REQ, or a GSS token of the Kerberos OID, 01 00 and one whole AP-REQ, with every byte accounted for |
| Krb5Frame.RequestRefusals | api/krb5_frame.js:145-239 | Which refusal either pre-flight gives to any payload, in order, and that acceptance names the first byte |
| Krb5Frame.TokenRefusals | api/krb5_frame.js:242-291 | Of the three parts of a token, the first that is wrong is the one the refusal names |
| Krb5Frame.ShortToken | api/krb5_frame.js:242-249 | A token is too short if and only if it has fewer than the 13 bytes of mechanism and token id |
| TlsOid.MechanismIsKerberos | api/krb5_frame.js:71-77 | The mechanism asked for is 1.2.840.113554.1.2.2, encoded |
| Krb5Frame.FrameForTcp | api/krb5_frame.js:296-301 | The filled buffer is the four-byte big-endian length and then the message |
| Krb5Frame.FrameRoundTrip | api/krb5_frame.js:296-364 | Reading a framed message back, whatever follows, gives the message if and only if its length is one the relay honours, and otherwise the refusal for that length |
| Krb5Frame.FrameStable | api/krb5_frame.js:309-364 | A verdict once reached is the verdict on every longer buffer |
| Krb5Frame.NeedIsExact | api/krb5_frame.js:309-364 | An undecided read says exactly how many bytes are missing: one fewer leaves it undecided |
| Krb5Relay.Socket.Settle | api/krb5_relay.js:368-384 | finish settles once, clears both timers and destroys the socket |
| Krb5Relay.Socket.OnData | api/krb5_relay.js:393-412 | The data handler appends, applies the cap, then reads the frame |
| Krb5Relay.Socket.OnConnect | api/krb5_relay.js:386-391 | Connecting disarms only the connect timer and writes the framed payload |
| Krb5Relay.Socket.OnEnd | api/krb5_relay.js:419-426 | A close before a complete reply is the short-reply refusal with the byte count |
| Krb5Relay.Socket.OnDatagram | api/krb5_relay.js:473-482 | A UDP datagram is the reply unless it is over the cap |
| Krb5Relay.WritesExactly | api/krb5_relay.js:339-391 | On every run of an exchange over TCP what is written is the four-byte length and the payload if and only if the connection comes up before anything decides the exchange and before the connect timer, and nothing otherwise; over UDP the payload goes out at once |
| Krb5Relay.SettlesWithFirstVerdict | api/krb5_relay.js:339-434 | For every order of socket events and timers the exchange settles once, with the verdict a flag-free scan of the events finds first, and nothing it armed is left |
| Krb5Relay.CutsDoNotMatter | api/krb5_relay.js:393-426 | For every stream and every cutting, the outcome is that of one reading of the whole stream, error included, exactly unless the chunk that decides it also crosses the cap |
| Krb5Relay.ChunkingIndependence | api/krb5_relay.js:393-426 | For streams of at most maxReplyBytes + 4 bytes how TCP cut them never shows |
| Krb5Relay.PastTheCapCutsMatter | api/krb5_relay.js:398-404 | Beyond that length it shows: the same bytes give the reply or the too-big refusal depending on the cut |
| Krb5Relay.Lookup.OnAnswer | api/krb5_relay.js:301-335 | The lookup callback refuses at the first blocked entry and otherwise answers the first address |
| Krb5Relay.UnresolvedFails | api/krb5_relay.js:282-300 | On an ideal clock a name whose lookup never calls back is refused as a lookup timeout exactly when connectTimeout is spent |
| Krb5Relay.CallSettlesWithFirstVerdict | api/krb5_relay.js:262-434 | For every order of lookup callback, lookup deadline, socket events and timers a call settles once, with the outcome a flag-free scan of the list finds: the lookup's first event decides whether there is an exchange, a callback after the deadline is dropped, and an allowed address leaves the outcome to the first terminal socket event after it; once settled nothing is armed, and until then a timer is or the call is wedged |
| Krb5Relay.WedgedExactly | api/krb5_relay.js:301-335 | Over every run, a call is left pending with nothing armed if and only if the host is a name whose lookup first calls back without an error and with an empty list or no value |
| Krb5Relay.DialsOnlyWhatPassed | api/krb5_relay.js:262-337 | On every run the socket opens only to the literal asked for, unblocked, or to the first entry of an answer no entry of which is blocked |
| Krb5Relay.AdmitsExactly | api/krb5_relay.js:526-546 | A call goes ahead, with its payload as given, if and only if the payload is one request of the endpoint's kind and the port is allowed; the payload is judged first, then whether the service endpoint has any port, then the port |
| Krb5Relay.SendsOneRequestToAllowedAddress | api/krb5_relay.js:507-565 | End to end: everything an admitted call ever writes is one well-formed Kerberos request, framed over TCP, to an address the policy let through; the next row says when it is written |
| Krb5Relay.CallWritesExactly | api/krb5_relay.js:339-391 | Over every run of a call whose socket is open, over TCP: the framed request has been written if and only if the connection came up in time among the events that socket heard; over UDP it has |
| Krb5Relay.AllowListBoundsDialling | api/krb5_relay.js:301-335 | With the guard in allow-list mode, whatever the resolver answers, only an address inside an allowed range is dialled, or text that is no address |
| Krb5Relay.BlockListBoundsDialling | api/krb5_relay.js:301-335 | With the guard in block-list mode, whatever the resolver answers, no address inside a blocked range is dialled |
| Krb5Relay.CallAnswersInTime | api/krb5_relay.js:262-434 | On an ideal clock nothing happens to an unanswered call later than connectTimeout + callTimeout after its start |
| Krb5Relay.ShorterCallTimeoutShadows | api/krb5_relay.js:347-366 | Both timers start together, so with callTimeout below connectTimeout no run of a call ends in a connect timeout |
| Krb5Relay.ConnectTimeoutExactly | api/krb5_relay.js:347-366 | Some run of a call ends in a connect timeout if and only if it goes over TCP, has an address it may dial, and its connect budget is no longer than its call budget |
| Krb5Relay.DeadAddressFails | api/krb5_relay.js:347-366 | An address that never does anything is refused exactly when the shorter budget is spent, with the code of that budget |
| TlsResponse.DecodeChunked | api/tls_probe.js:238-260 | On every buffer on which the loop over chunks ends, negative sizes and backward moves included, it computes what the turn-by-turn specification gives |
| TlsResponse.LoopGives | api/tls_probe.js:238-260 | That answer is unique, and where no size is negative the loop does end, with the answer the rows below are about |
| TlsResponse.SizeDecides | api/tls_probe.js:247-257 | What a size line does wherever it stands: no number ends the walk incomplete, zero alone completes it, a negative number alone sends it backward |
| TlsResponse.NegativeSizeStalls | api/tls_probe.js:247-257 | Why ending is a condition: on the size line -6 the loop has not ended after any number of turns |
| TlsResponse.DecodeGrows | api/tls_probe.js:238-260 | More bytes only lengthen the decoded body, and once it is complete nothing changes it |
| TlsResponse.DecodeInverts | api/tls_probe.js:238-260 | Decoding inverts every chunked encoding, leading zeros, white space before a semicolon and extensions included, whatever follows the last chunk |
| TlsResponse.SizeSame | api/tls_probe.js:247 | The case of the digits of a chunk size does not matter |
| TlsResponse.DecodeOfCut | api/tls_probe.js:238-260 | On any number of leading bytes, exactly the part of the body inside them is decoded, complete if and only if the last-chunk line is whole |
| TlsResponse.HeadersAreComplete | api/tls_probe.js:287-300 | Under each header name, whatever its case, stand all the values sent, in order; a name not sent is absent |
| TlsResponse.HeaderStands | api/tls_probe.js:289-300 | A value sent on any line under any casing of a name, casing taken letter by letter, stands under the small-letter name |
| TlsResponse.SaysChunked | api/tls_probe.js:304 | A head one line of which names transfer-encoding in any casing, with chunked in any casing in its value, has its body decoded |
| TlsResponse.ChunkedExactly | api/tls_probe.js:304 | And no other: it is decoded if and only if the values sent under that name, joined and lower-cased, hold the word |
| TlsResponse.ReadHeaders | api/tls_probe.js:289-300 | The loop over header lines computes that map |
| TlsResponse.HeadIsRead | api/tls_probe.js:273-305 | Of a response whose head is kept whole, the status line is the head up to its first line end and the headers are those of the lines after it |
| TlsResponse.ResponseOfCut | api/tls_probe.js:273-321 | A chunked response cut anywhere: the body is the part of the true body kept, reported complete if and only if the last-chunk line was kept or the head was not |
| TlsResponse.VerbatimOfCut | api/tls_probe.js:273-321 | A response that is not chunked is handed back as sent, cut anywhere, never marked incomplete |
| TlsHandshake.Handshake.Settle | api/tls_probe.js:955-971 | finish settles once, clears all three timers and drops the socket |
| TlsHandshake.Handshake.OnData | api/tls_probe.js:1228-1248 | The data handler keeps what fits under the cap, settles when a chunk does not, and restarts the silence timer |
| TlsHandshake.Handshake.OnSecureConnect | api/tls_probe.js:1065-1147 | Completing the handshake starts the grace wait or the request, and a failed write settles at once |
| TlsHandshake.Handshake.OnEnd | api/tls_probe.js:1253-1266 | The far end's FIN is recorded as a hang-up before the response is read |
| TlsHandshake.HandshakeOutcome | api/tls_probe.js:940-1328 | For every order of events from its start the handshake ends in the outcome a flag-free scan of the events finds, settles once and for good with nothing armed; a reported response is read off exactly the first min(total, cap) bytes sent, truncated and ended by the cap in exactly the case of more |
| TlsHandshake.UnaskedUsability | api/tls_probe.js:1417-1423 | Over every run that asks nothing, a report is usable if and only if the first of data, close, error and end of grace after the handshake is data or the end of grace: a client certificate refused over TLS 1.3 is not reported usable |
| TlsHandshake.AskedUsability | api/tls_probe.js:1417-1423 | Over every run that asks, a report is unusable if and only if there was an error, or the far end hung up having sent nothing |
| TlsHandshake.CutsDoNotMatter | api/tls_probe.js:1179-1266 | However TCP cuts the response before the peer closes, the report is the reading of its first min(total, cap) bytes |
| TlsHandshake.ChunkedResponseReport | api/tls_probe.js:1179-1266 | From the start of the call, every chunking, segmentation, arrival length and cap together: the body reported is exactly the part of the true body within the bytes kept, and completeness is reported exactly when they hold the last-chunk line or not even the head |
| TlsHandshake.SettlesInTime | api/tls_probe.js:986-999 | On an ideal clock nothing happens to an unsettled handshake later than callTimeout after its start |
| TlsHandshake.SilenceExactly | api/tls_probe.js:1145-1226 | On an ideal clock a wait ends for silence exactly 750 ms (nothing asked) or 2000 ms after the far end was last heard, every chunk starting it anew |
| TlsHandshake.HandshakeTimeoutExactly | api/tls_probe.js:973-999 | Some run without a connection ends in the handshake timeout if and only if callTimeout is at most connectTimeout |
| TlsOid.Reader.ReadHeader | api/tls_probe.js:697-713 | The header reader advances the shared index and reads past the end as undefined, as the specification says |
| TlsOid.AgreesWithOuterTlv | api/tls_probe.js:697-713 | Whatever header the Kerberos reader accepts, this one reads with the same tag, length and content start |
| TlsOid.PartsInvertEncoding | api/tls_probe.js:731-742 | The base-128 loop inverts the encoder for every arc list of unbounded arcs if and only if the second arc is below 40 |
| TlsOid.ReportsDottedOid | api/tls_probe.js:731-742 | The text reported is the OID's dotted form under exactly that condition |
| TlsOid.FindsAlgorithm | api/tls_probe.js:697-731 | For every certificate-shaped value, with any tbsCertificate content, any outer lengths and anything after, the walk finds the outer algorithm's OID; it answers null if and only if one of the three tags it looks at is another |
| TlsOid.ReportsAlgorithm | api/tls_probe.js:692-748 | From bytes to text: what is reported for such a value is the dotted form of its outer algorithm's OID if and only if the second arc is below 40 |
| TlsOid.EmptyOidReported | api/tls_probe.js:731-742 | An OID element without content is reported as NaN.NaN rather than refused |
| TlsOid.SignatureAlgorithmOid | api/tls_probe.js:692-748 | The whole walk computes the parts the lemmas above are about, joined by dots |
| SpiffeDer.SplitDerCertificates | api/spiffe_client.js:840-875 | The loop over offsets computes the split the lemmas below characterise |
| SpiffeDer.AgreesWithOuterTlv | api/spiffe_client.js:843-872 | The splitter moves past an element if and only if the Kerberos reader accepts its header, its tag is SEQUENCE and it fits, and then by the same total |
| SpiffeDer.SplitIsExact | api/spiffe_client.js:840-875 | The blocks are whole SEQUENCE elements, concatenate to a prefix of the input, and what is left starts no complete element |
| SpiffeDer.SplitIsUnique | api/spiffe_client.js:840-875 | Any blocks with those properties are the split |
| SpiffeDer.SplitOfConcatenation | api/spiffe_client.js:840-875 | Splitting undoes concatenation |
| SpiffeDer.SplitComposes | api/spiffe_client.js:840-875 | Once the first input is wholly consumed, appending a second appends its split |
| SpiffePem.PemLines | api/spiffe_client.js:877-881 | Between its markers a printed certificate has lines of 1 to 64 characters, all but the last exactly 64, holding its base64 in order |
| SpiffePem.BlankedItem | api/spiffe_client.js:886-904 | An item of base64 is read off its base64 characters alone, whatever white space is in and around it; one of white space alone adds nothing |
| SpiffePem.PemItem | api/spiffe_client.js:889-897 | An item with a PEM marker anywhere in it is passed on as it is, without the white space around it, on lines of its own |
| SpiffePem.BundleToPem | api/spiffe_client.js:886-904 | The loop over items and blocks computes the printed bundle of the specification |
| SpiffePem.PrintedBlocksCut | api/tls_probe.js:210-214 | Printed blocks are cut again one by one, holding the same certificates in the same order |
| SpiffePem.PipelineRoundTrip | api/spiffe_client.js:840-904 | However certificates are grouped into base64 items, printing the bundle, cutting it and decoding each block gives all of them back in order |
| SpiffePem.PrintingIsIdempotent | api/spiffe_client.js:889-897 | PEM already printed passes through unchanged |
| SpiffeJson.StructRoundTrip | api/spiffe_client.js:1289-1301 | Flattening inverts the google.protobuf.Struct encoding of every JSON object of any depth |
| SpiffeJson.ValueRoundTrip | api/spiffe_client.js:1303-1337 | Flattening inverts the google.protobuf.Value encoding of every JSON value of any depth |
| SpiffeJson.ValueByKind | api/spiffe_client.js:1303-1337 | A value of a known kind becomes the member of that name, flattened, whatever else it holds; without it a list is empty and the others undefined |
| SpiffeJson.NotAValue | api/spiffe_client.js:1303-1337 | What is no Value is left alone, except that an array or an object of no known kind becomes null |
| SpiffeJson.NotAStruct | api/spiffe_client.js:1289-1295 | What has no fields member, or a falsy one, is left alone |
| SpiffeJson.WrapsBareValues | api/spiffe_client.js:1258-1285 | At a path of one name an absent member, a null and a plain object stay as they are and anything else is put in a wrapper |
| SpiffeWrap.WrapFields | api/spiffe_client.js:1258-1285 | The loops over paths and their names, assigning to members of the request, do to every request what the specification on its memory says, shared objects and cycles included |
| SpiffeWrap.TreesAreWrapped | api/spiffe_client.js:1258-1285 | On a request in which no object is met twice, as JSON text makes them, that leaves the request object holding the value Wrap gives, and still a tree |
| SpiffeJson.LeavesAfter | api/spiffe_client.js:1262-1282 | Wrapping moves the bare value at its own path one name down and moves no other |
| SpiffeJson.IdempotentExactly | api/spiffe_client.js:1258-1285 | A path list wraps idempotently on every request if and only if no listed path is where a value it wrapped ends up, which can be read off the list |
| SpiffeJson.ValueFirstDoesNotSettle | api/spiffe_client.js:1258-1285 | The list a.value, a is one that fails the condition |
| SpiffeJson.NoValuePathSettles | api/spiffe_client.js:308-314 | A list with no path ending in value, as all those in use, is idempotent |
| SpiffeInvoke.Call.Remember | api/spiffe_client.js:1648-1662 | keep stores the message, counts it and says whether either cap has been reached, the byte cap first |
| SpiffeInvoke.Call.OnTimer | api/spiffe_client.js:1664-1688 | The deadline is a success if something had arrived and DEADLINE_EXCEEDED if not |
| SpiffeInvoke.SettlesWithFirstVerdict | api/spiffe_client.js:1622-1739 | For every order of events the call settles once with the outcome a flag-free scan finds first, so a CANCELLED before settlement is never excused as long as cancel emits nothing before it returns |
| SpiffeInvoke.InvokeOutcome | api/spiffe_client.js:1622-1739 | At settlement the messages are a prefix of those delivered, at most wanted; messages means exactly wanted below the byte cap, size that the last one alone crossed it, and a deadline is OK if and only if something arrived |
| SpiffeInvoke.CancelledExactly | api/spiffe_client.js:1664-1717 | The event that settles a call cancels it if and only if it is the deadline or the message that fills a stream |
| SpiffeInvoke.SettlesWithinBudget | api/spiffe_client.js:1634-1688 | On an ideal clock nothing happens to an unsettled call later than its budget after it was made |
| SsfReceiver.Receiver.DropExpired | api/ssf_receiver.js:134-150 | The sweep over the map deletes exactly the expired inboxes |
| SsfReceiver.Receiver.Create | api/ssf_receiver.js:156-188 | create on the heap refines the specification: sweep, cap, then a fresh inbox of its own |
| SsfReceiver.Receiver.Deliver | api/ssf_receiver.js:246-312 | deliver refines it: the refusals in order, then one push into that inbox alone |
| SsfReceiver.Receiver.Drain | api/ssf_receiver.js:348-376 | drain clamps the cursor, an integer or not, and returns the events after it without consuming them |
| SsfReceiver.Receiver.Clear | api/ssf_receiver.js:379-390 | clear empties that inbox alone and reports how many it dropped |
| SsfReceiver.Receiver.Remove | api/ssf_receiver.js:198-204 | remove deletes that inbox alone |
| SsfStore.ApplyKeeps | api/ssf_receiver.js:134-390 | Every call keeps the store refining the log a caller can keep from the answers alone |
| SsfStore.FromEmpty | api/ssf_receiver.js:134-390 | Over every sequence of calls from a fresh start: inboxes within their cap; each holds exactly the newest min(maxEvents, accepted since the last clear) events in order; pushes = waiting + dropped + cleared |
| SsfStore.NoneLostNoneTouched | api/ssf_receiver.js:134-204 | An unexpired inbox is lost only to remove, reset or its id drawn again, and a call on one inbox leaves the others as they were |
| SsfStore.NoneOutlives | api/ssf_receiver.js:134-204 | After every call that sweeps, no inbox is held past its creation plus ttl, every one still alive is held unless this call removes it, and only a create adds one |
| SsfStore.ExpiredIsUnknown | api/ssf_receiver.js:134-390 | Deliver, drain, clear and remove answer for an expired inbox as for one that never was |
| SsfStore.RefusedForRoom | api/ssf_receiver.js:156-170 | A create is refused for want of room if and only if at least maxInboxes inboxes are alive |
| SsfStore.RoomOverRun | api/ssf_receiver.js:134-188 | Over every sequence of calls from a fresh start, such a refusal means that exactly maxInboxes inboxes are held, every one of them alive |
| SsfStore.DeliveryExactly | api/ssf_receiver.js:246-312 | When a delivery is refused and for what, and what an accepted one leaves: the text without surrounding white space, its size in UTF-8 and its time, as the newest event |
| SsfStore.DrainExactly | api/ssf_receiver.js:348-376 | Which events a drain shows for any cursor, a fraction, a negative and one past the end included; it changes nothing |
| SsfStore.ClearExactly | api/ssf_receiver.js:379-390 | A clear drops the events, reports their number and changes nothing else |
| SsfStore.RemovedIsGone | api/ssf_receiver.js:198-204 | A removed inbox is gone, and the answer says whether there was one alive |
| SsfStore.LabelKept | api/ssf_receiver.js:171-188 | A new inbox holds nothing but its label, the first two hundred characters of the one given, and its time |
| SsfStore.SurvivesRun | api/ssf_receiver.js:134-204 | So an inbox survives every run of other calls made while it is alive |
| SsfStore.CursorIsExact | api/ssf_receiver.js:348-376 | With no clear in between, passing back the last total returns exactly the events accepted since if and only if there were none or nothing has been evicted since the last clear |
| SsfStore.CaughtUpReaderIsStuck | api/ssf_receiver.js:357-373 | A reader caught up with a full inbox is shown nothing more while it stays full, however much arrives |
| SsfStore.LateEventIsNotShown | api/ssf_receiver.js:289-376 | Under every configuration: create an inbox, fill it, drain it, and the next event is accepted and not shown to whoever passes back that drain's total |
| SsfStore.ExactlyOnceFromCreation | api/ssf_receiver.js:289-376 | From the creation of an inbox, on runs without eviction or clear, any number of readers interleaved with deliveries are each shown every accepted event once, in order |
| LdapClient.ReadsEveryUrl | api/ldap_client.js:184-217 | Every LDAP URL, in any case, bracketed or bare, with or without host, port and path, is read as the host and port written or the scheme's own port; a port outside 1 to 65535 or a missing host is refused |
| LdapGrammar.AcceptsExactly | api/ldap_client.js:184-217 | A text is accepted with answer u if and only if, trimmed, it is the print of a legal spelling that denotes u: scheme in any case, host in brackets or up to the first colon, a port parseInt finds, a path on one line |
| LdapGrammar.RefusedExactly | api/ldap_client.js:184-217 | Which refusal a text gets: as no LDAP URL if and only if it has not the shape of one (scheme in any case, an authority, a path on one line), as naming no host if and only if its authority starts with a colon, otherwise for its port |
| LdapGrammar.PortMayCarryJunk | api/ldap_client.js:202-212 | For every host and port, anything that starts with no digit may follow the port |
| LdapClient.DialledReadsBack | api/ldap_client.js:386-389 | The URL dialled names exactly the scheme, address and port that were checked |
| LdapClient.Search.OnEntry | api/ldap_client.js:686-708 | The entry handler applies the count cap, then the byte cap, then keeps the entry |
| LdapClient.SearchOutcome | api/ldap_client.js:660-738 | For every order of events from its start an answer is given if and only if an error or an end comes, with the result of the first; it holds the longest prefix of the entries sent within both caps, marked truncated if and only if one was left out or a referral was not followed |
| LdapClient.ReasonNamed | api/ldap_client.js:686-738 | For every run, the reason an answer names for being cut is the one there was: the count only if as many entries as it allows are kept, the bytes only if the next entry would cross them with the count not reached, a referral only if one came |

## Left out

- api/server.js, routing, agents, axios, logging and error texts: input and output around the parts modelled.
- Sockets, DNS, TLS, gRPC and ldapjs themselves: their callbacks are events, in any order.
- JSON.parse and stringify, UTF-8 decoding and dates: bodies are bytes, messages are measured by their JSON text.
- Numbers beyond 2^53, and chunk sizes too large to be finite: sizes, arcs and lengths are unbounded naturals.
- Configuration coercion: every limit is the positive integer it has become by the time it is used.
- Names on Object.prototype (a header called constructor, a field called __proto__) and array indexes in a field path.
- TlsResponse.DecodeChunked: requires that the source's loop ends.
- TlsResponse.ParseHttpResponse: reads a negative chunk size as the end of the body, where the source's loop goes on; the status line is kept as text, its version, code and reason not taken apart.
- TlsHandshake: the certificate chain, cipher and post-quantum fields of the report, and the second, certificate-less handshake.
- Chunked trailer sections: what follows the last-chunk line is any bytes.
- SpiffeInvoke: messages delivered after settlement still reach the array the answer shares; outcomes are stated at settlement. Whether a failure is called a transport failure is not modelled.
- SpiffeJson.StructToJson: a truthy `fields` that is no object, and `values` that is no array, do not come from decoding and are read as empty.
- SpiffePem.FromBase64: characters outside the alphabet are passed over; the url-safe alphabet and a padding character in the middle of text are not modelled.
- SsfStore: the decoded header and claims, media type and authorization flag of an event, which are reported and never decided on.
- Krb5Relay.LookupAnswer: a list the lookup answers holds address records; a list with a hole in it is not modelled.
- Krb5Relay: connection timings in the reply, and datagram send errors apart from socket errors, with which they share an outcome.
- The rest of the guard (URL scheme check, lookup hook, agents), the redirect handling and the HTTP interceptor.
- LdapClient.Search: entries after the answer still reach the array the answer shares; the answer is stated as it is when given.
- LdapClient: binding and the operations other than search, which are single requests.
- api/scim_proxy.js, api/ssf_proxy.js, api/connect_timeout.js, common/data.js and the client: validation tables and build scripts that would add easy members only.
