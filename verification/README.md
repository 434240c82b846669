# dnasrep-go in Dafny

A model of the dnasrep server: a TLS 1.0 server that speaks to PlayStation 2 DNAS
clients, replays captured DNAS packets over it, and redirects DNS names to itself.
The DES, MD5, SHA-1, HMAC and RSA library calls are fields of a record
(`Primitives.Suite`) about which only lengths and the inverse laws are assumed
(`Lawful`), so every theorem holds for any functions with those laws.

| file | what it models |
|---|---|
| `Bytes`, `Results`, `Text`, `Hex` | bytes, big-endian integers, XOR, and the Go library functions on strings |
| `Primitives`, `Cbc`, `Prf` | the opaque cryptography, triple DES in CBC mode, the TLS 1.0 PRF |
| `Record`, `Channel` | one direction of the record layer: one record, and whole runs |
| `Hello`, `Messages` | the ClientHello forms, ServerHello, Certificate, ClientKeyExchange |
| `Handshake`, `HandshakeRuns` | the server's handshake and the client streams it accepts |
| `Client`, `Session` | an honest client against the server; one request over the channel |
| `Http`, `HttpReply` | the incremental request parser, the reply head, and the cutting of replies |
| `Tls10Conn` | the connection class whose methods are proved to do all this |
| `RegionCipher`, `Replay`, `Dispatch` | `encrypt3n`, captured replies and modes, routing |
| `Delivery` | all of it together: what a console reads from a replaying server |
| `LongestFirst`, `DnsRules` | stable sort, dedupe and first match; DNS redirects and proxy prefixes |
| `DnsMessage`, `Hints`, `Chain` | DNS questions and answers, region hints, certificate chains |

State that the source updates in place is a class (`Tls10Conn`, `RegionHints`,
`Certificate`) or an array, and its methods are tied by `ensures` to functions on
values; the theorems are about those functions. Randomness (the server random and the fallback
premaster secret) and, up to `Delivery`, the reply to a request are parameters.

Where the code does not do what its text suggests, the model follows the code:

- A v3 ClientHello of exactly 38 bytes passes the length check at `tls10.go:398` and is then
  read one byte past its end (`Hello.V3OutOfRangeIff`), and a negative Content-Length makes
  `parseHTTPRequest` slice out of range (`Http.OutOfRangeIff`). `Session.ServeOutOfRangeIff` says
  which whole connections end that way.
- `dns.go:107-140` reads a label that itself holds a dot, such as the one label `a.b`, as if it
  were two, so a rule for `b` covers it (`Hints.DottedLabelExample`). Suffixes match on label
  boundaries for exactly the names whose labels hold no dot (`DnsRules.LabelBoundariesIff`).
- The check for a record shorter than its MAC cannot fire (`Record.ShorterThanMacIsDead`), nor can
  the check for path separators in a packet name (`Replay.LoadsByName`).
- Flags byte 2 of a DNS answer is always 0x81, QR plus RD; the comment at `dns.go:170` speaks of AA
  and a copied RD. QDCOUNT is copied while one question is kept, so the answer is a
  well-formed message only for QDCOUNT = 1 (`DnsMessage.AnswerWellFormedIff`).
- Sequence numbers are 64-bit and wrap; delivery is proved for fewer than 2^64 records.

## Model

| member | source | states |
|---|---|---|
| Channel.DeliversPrefix | tls10.go:153-221 | whatever bytes arrive, the records an active reader accepts before its first error are a prefix of those written, in order, once each, types and contents intact, as long as no MAC was forged and fewer than 2^64 records were written |
| Channel.RoundTrip | tls10.go:130-207 | any list of records within the limit, written and read back over one stream, comes back unchanged, and the reader then goes on exactly from the writer's sequence number, IV and keys |
| Channel.RunIsOneChain | tls10.go:181-207 | the fragments of any run are together the one CBC encryption of its plaintexts together, so the IV of each record is the last block of the one before |
| Channel.HonestVerifies | tls10.go:153-221 | on an undisturbed stream the reader verifies, in order, exactly what the writer authenticated, so the no-forgery hypothesis of delivery holds there |
| Channel.WriteAllInjective | tls10.go:181-207 | two lists of records with the same wire bytes are the same list |
| Record.MacInputInjective | tls10.go:210-221 | the authenticated bytes determine sequence number, type and content, even when the 16-bit length field wraps |
| Record.MacInputFields | tls10.go:210-221 | what is authenticated is, in its places, the sequence number, type, version 3.1, the low 16 bits of the length, and the content (RFC 2246 section 6.2.3.1) |
| Record.PlaintextFields | tls10.go:181-200 | what is encrypted is the content, its MAC, and 1 to 8 bytes, each one less than their number, that fill the last block (RFC 2246 section 6.2.3.2) |
| Record.RecordOnWire | tls10.go:181-207 | type, version, 16-bit length and fragment on the wire, and the IV and sequence number left behind |
| Record.ReadBackIff | tls10.go:130-207 | a mirrored reader gets a written record back if and only if its fragment is at most 2^14+2048 bytes |
| Record.DecryptAccepts | tls10.go:153-179 | decrypt yields a content if and only if the plaintext is content, its MAC, 0 to 255 bytes of any filler, and the filler's length |
| Record.DecryptLeaves | tls10.go:153-179 | the IV is replaced by every fragment of whole blocks, accepted or not; the sequence number counts accepted ones only |
| Record.OpenSealed | tls10.go:153-179 | a record sealed with any legal padding length opens to its content and leaves reader and writer in equal states |
| Record.ShorterThanMacIsDead | tls10.go:163-169 | no input reaches the error for a record shorter than its MAC |
| HandshakeRuns.ServesExactlyGenuineClients | tls10.go:239-336 | HTTP is served if and only if the client stream begins with hello, key exchange, change of cipher and a Finished that is the PRF of the transcript so far, and then on exactly the transcript, output and directions those messages determine |
| HandshakeRuns.AcceptedIsGenuine | tls10.go:239-335 | a successful run consumed the messages of one genuine flight, in order, and nothing else |
| HandshakeRuns.GenuineIsAccepted | tls10.go:239-335 | every genuine flight succeeds, whatever follows it; the transcript is the handshake messages without headers or change of cipher |
| HandshakeRuns.GenuineIff | tls10.go:290-318 | the client's Finished is accepted if and only if it opens under bytes 0-19, 40-63 and 88-95 of the key block and its 12 bytes are PRF(master, "client finished", MD5(t)+SHA1(t)), where t is hello, server hello, chain, done message and key exchange, and the two secrets are the PRFs of RFC 2246 sections 8.1 and 6.3 with the randoms in their orders |
| HandshakeRuns.EstablishedIs | tls10.go:239-336 | every byte the server has sent after a genuine flight: three messages in the clear, the change of cipher, and a Finished with PRF(master, "server finished", MD5(t)+SHA1(t)), t now with the client's Finished, sealed under bytes 20-39, 64-87 and 96-103 of the key block |
| HandshakeRuns.EstablishedReads | tls10.go:239-336 | the server then reads under the client's part of the key block, at sequence number 1 and with the last block of the client's Finished as IV |
| HandshakeRuns.FramesIff | tls10.go:341-420 | a hello is taken in behind a v2 header, its length of at least 9 with the top bit set, or in a record of type 22, any version and at most 2^14+2048 bytes; a key exchange in such a record only |
| HandshakeRuns.FailedRunsStopCleanly | tls10.go:239-335 | a failed run stopped at one of four points; its transcript is the whole handshake messages at the front of its input, each taken without its header, with the server's flight between them, no more and no fewer than it could take; it sent nothing but that flight, in the clear, and never turned encryption on |
| HandshakeRuns.HandshakeOutOfRangeIff | tls10.go:239-420 | the handshake slices out of range if and only if the stream begins with a v3 hello of 38 bytes, whatever follows |
| Handshake.KeyBlockOrder | tls10.go:561-572 | the directions cut the key block as RFC 2246 section 6.3 orders it: MAC secrets, keys, IVs, the client's first each time, covering all 104 bytes |
| Client.HonestHandshakeCompletes | tls10.go:239-335 | for every challenge, session id, random, premaster and certificate chain within the record limit, and whatever comes after the client's Finished, both Finished checks pass over equal transcripts and each side's write state equals the other's read state |
| Client.HonestFlightIsGenuine | tls10_test.go:87-154 | what the test client sends is a genuine flight |
| Client.SharedSecrets | tls10.go:535-572 | the server computes the client's own master secret, key block and transcript |
| Session.SessionDelivers | tls10.go:239-336 | an honest client that shakes hands and sends a request in records of any cut reads back exactly the reply to that request, and nothing after it |
| Session.HeardIsReply | tls10.go:239-336 | the application data that client reads, taken together, are the reply |
| Session.AnswersOnlyTheClient | tls10.go:576-621 | over a tampered but unforged record stream the server does what the client's own data ask for, or it sends nothing |
| Session.HonestClientProtected | tls10.go:239-336 | after an honest client's Finished any bytes may arrive: short of forgery the handshake still completes, and the server answers that client's own request or sends nothing more |
| Session.ServeOutcome | tls10.go:576-621 | on any record stream whatever, serving ends as the one parse of all readable data before the first error or alert says; a run that fails has sent nothing |
| Session.AppDataIs | tls10.go:576-596 | application data are the contents of the records of type 23, in order |
| Session.ServeOutOfRangeIff | tls10.go:239-660 | a whole connection slices out of range if and only if it begins with a 38-byte v3 hello, or the data readable after a genuine handshake hold a complete head with a negative Content-Length |
| Session.AnswersWholeRequest | tls10.go:598-621 | however the stream is cut into records, the server does what the one parse of the whole asks for: answer a complete request, fail on a negative length, or send nothing |
| Session.PeerReadsReply | tls10.go:610-618 | the mirrored peer reads the reply whole and in order |
| Http.AccumulateIsParse | tls10.go:598-621 | the reading loop ends with what one parse of all the bytes gives, complete in one exactly when in the other |
| Http.CutsDoNotMatter | tls10.go:598-621 | two ways of cutting one stream dispatch the same request |
| Http.ParseStable | tls10.go:632-660 | a complete request is the same request on every extension of the buffer |
| Http.RequestParses | tls10.go:632-660 | a request built from verb, path, version, any header fields and body is read as such once the announced bytes are there, and fails to slice when the length is negative |
| Http.NoLengthNoBody | tls10.go:649-658 | a request without a Content-Length field is complete at once, with an empty body |
| Http.AtoiIs | tls10.go:649 | an optional sign and digits give their value cut to 64 bits, and the empty text 0 |
| Http.AtoiOther | tls10.go:649 | digits followed by anything else give 0, unless they have left 64 bits before |
| Http.GetFirst | tls10.go:649 | the value of a field is the first under its name in any letter case, and empty without one |
| Http.HeaderFieldCut | tls10.go:643-647 | a header line is cut at its first colon, white space around both parts goes, and a line without a colon adds nothing |
| Http.SplitIff | tls10.go:638 | the lines are the one way of cutting the head at its line breaks |
| Http.FieldsOf | tls10.go:639 | the parts of the request line are its words |
| Text.TrimSpaceSpec | tls10.go:645 | what is trimmed is white space, and what is left neither begins nor ends with any |
| Text.SpaceLenIff | tls10.go:639-645 | the byte patterns taken for white space are the UTF-8 forms of the characters unicode.IsSpace accepts |
| HttpReply.ResponseText | tls10.go:711-715 | the reply is the literal head with type and length filled in, and the body |
| Http.OutOfRangeIff | tls10.go:649-658 | slicing the body fails if and only if a complete head announces a negative length |
| Http.NegativeLengthExample | tls10.go:649-658 | a concrete request with Content-Length -1 that fails |
| Http.FragmentsCarryReply | tls10.go:610-618 | a reply is cut into ceil(n/2^14) non-empty pieces of at most 2^14 bytes that concatenate to it |
| HttpReply.ResponseReadsIff | tls10.go:711-715 | a client that reads as many body bytes as the head announces gets the whole body, if and only if its length fits 63 bits |
| HttpReply.AtoiDecimal | tls10.go:649 | a number printed in decimal is read back, saturating at the largest 64-bit integer |
| Http.ParseHTTPRequest | tls10.go:632-660 | the method with the header loop computes the parse the theorems are about |
| Prf.PHash | tls10.go:70-85 | the loop returns the first n bytes of the stream HMAC(A(1)+seed), HMAC(A(2)+seed), ... |
| Prf.ExpandByte | tls10.go:70-85 | byte i comes from digest i/size+1 of RFC 2246 section 5, for every requested length |
| Prf.Prf10 | tls10.go:87-99 | the method returns the XOR of the two expansions |
| Prf.Prf10Byte | tls10.go:87-99 | each output byte is one MD5-HMAC byte keyed by the first half XOR one SHA-1-HMAC byte keyed by the second |
| Bytes.XorIff | tls10.go:94-97 | the XOR of two bytes is the one byte whose bits are set exactly where theirs differ |
| Prf.Prf10Prefix | tls10.go:87-99 | asking for more bytes does not change the earlier ones |
| Prf.SecretHalves | tls10.go:89-91 | the halves are equally long, cover the secret, and share exactly the middle byte when its length is odd |
| Hello.OffersCipher | tls10.go:486-501 | true exactly when an aligned 3-byte spec is 00 00 0a, or an aligned 2-byte suite is 00 0a |
| Hello.OffersIff | tls10.go:486-501 | a list of whole entries, and less than one more, is accepted if and only if one entry is 00 00 0a, or 00 0a in a v3 list |
| Hello.ChallengeRandom | tls10.go:377-384 | the copy yields the challenge right-justified in 32 bytes with leading zeros, or its last 32 bytes |
| Hello.RandomIsChallenge | tls10.go:377-384 | read as a number, the random is the challenge modulo 256^32 |
| Hello.V2Fields | tls10.go:365-384 | the v2 field code stays in range and computes the specified outcome |
| Hello.V3Fields | tls10.go:397-419 | the v3 field code computes the specified outcome, including the read past the end |
| Hello.ParseV2Body | tls10.go:347-385 | the hello a client builds yields the random of its challenge exactly when the cipher is among its specs |
| Hello.ParseV2Iff | tls10.go:365-384 | the v2 parse yields a random if and only if the body holds the announced fields, whatever follows them, with the cipher among the specs, and then the random of the challenge |
| Hello.ParseV3Iff | tls10.go:387-420 | the v3 parse yields a random if and only if the message holds version, that random, session id and suites, whatever follows, with the suite among them |
| Hello.V3OutOfRangeIff | tls10.go:397-404 | the v3 parse leaves its buffer if and only if the message has 38 bytes |
| Hello.V3OutOfRangeExample | tls10.go:397-404 | a concrete 38-byte message that does |
| Messages.CertificateRoundTrip | tls10.go:514-525 | reading the nested 3-byte lengths gives the chain back in order if and only if the body fits 24 bits |
| Messages.BuildCertificate | tls10.go:514-525 | the loop builds the message the round trip is about |
| Messages.BuildServerHello | tls10.go:503-512 | the message with version 3.1, the random, no session id, suite 0x000a, null compression |
| Messages.ServerHelloFields | tls10.go:503-512 | length, version, random, empty session id, suite 0x000a and null compression each stand where RFC 2246 section 7.4.1.3 puts them |
| Messages.WithLengthFields | tls10.go:528-533 | type and body stay, and the three bytes between are the length of the body modulo 2^24 |
| Messages.MessageNumbers | tls10.go:43-54 | the content types and handshake types are those of RFC 2246 appendix A |
| Messages.PutHSLen | tls10.go:528-533 | only the three length bytes change, to the length of what follows the header |
| Messages.DecryptPremaster | tls10.go:535-559 | the decrypted 48 bytes, or the fallback with version 3.1 on any failure, or the two length errors |
| Messages.PremasterCases | tls10.go:535-559 | the announced bytes decrypt to the premaster if that gives 48 bytes, and otherwise it is version 3.1 and 46 random bytes, whatever follows |
| Messages.PremasterFailsIff | tls10.go:535-559 | a premaster is found if and only if the body is a 2-byte length and at least as many bytes |
| Messages.PremasterRecovered | tls10.go:535-559 | an honest key exchange gives the server the client's premaster secret |
| Tls10.Tls10Conn.constructor | tls10.go:110-126 | a fresh connection: nothing sent, empty transcript, both directions plain |
| Tls10.Tls10Conn.ReadRecord | tls10.go:130-151 | result, unread bytes and read direction are those of the record reader; the rest of the connection is unchanged |
| Tls10.Tls10Conn.Decrypt | tls10.go:153-179 | content or error, the IV replaced even on failure, the sequence number advanced only on success |
| Tls10.Tls10Conn.WriteRecord | tls10.go:181-207 | appends exactly the sealed record and advances only the write direction |
| Tls10.Tls10Conn.RecordMAC | tls10.go:210-221 | HMAC over sequence number, type, version, length and content |
| Tls10.Tls10Conn.WriteHandshake | tls10.go:224-227 | the message is both sent and added to the transcript |
| Tls10.Tls10Conn.ReadClientHello | tls10.go:341-420 | both hello forms: consumed bytes, transcript (raw v2 body) and random or error |
| Tls10.Tls10Conn.SetupKeys | tls10.go:561-572 | both directions get their part of the key block; activity and sequence numbers stay |
| Tls10.Tls10Conn.HandshakeAndServe | tls10.go:239-336 | the whole connection: a key that is not RSA fails at once, else outcome and final state are those the session theorems describe |
| Tls10.Tls10Conn.ReadAppData | tls10.go:576-596 | skips other records, ends at an alert, returns the next application data |
| Tls10.Tls10Conn.ServeHTTP | tls10.go:598-621 | accumulates until a request is complete and sends the reply in records |
| RegionCipher.Encrypt3n | dnas.go:24-43 | fails exactly on a region beyond the buffer, a length that is no multiple of 8 or a wrong key size, leaving the data alone; else only the region changes, to its CBC encryption |
| RegionCipher.Encrypt3nManual | dnas_test.go:19-38 | the reference block loop computes the same data as the CBC call, for every region |
| RegionCipher.ThreeKeys | dnas_test.go:19-38 | triple DES under k1, k2, k3 is DES encryption, decryption and encryption |
| RegionCipher.RegionInverse | dnas.go:24-43 | decrypting the region restores all the data |
| RegionCipher.RegionParts | dnas.go:24-43 | bytes before and after the region are untouched |
| RegionCipher.RegionCausal | dnas.go:24-43 | data equal up to a block boundary stay equal up to it |
| Cbc.DecryptEncrypt | tls10.go:157-159 | CBC decryption under the same key and IV undoes encryption, for any number of blocks |
| Cbc.EncryptDecrypt | tls10.go:195-197 | and encryption undoes decryption, so every ciphertext has exactly one plaintext |
| Cbc.EncryptAppend | dnas.go:40-41 | encrypting in two calls chained by the last block is encrypting once |
| Cbc.EncryptBlock | dnas.go:40-41 | each ciphertext block is the encryption of its plaintext block combined with the ciphertext block before it, or the IV |
| Replay.ConnectInvertible | dnas.go:162-183 | undoing the envelope and then the request region gives the captured packet; bytes outside [0x28,0x148) are its own |
| Replay.ConnectCausal | dnas.go:162-183 | replies to two requests from one packet agree on the first 0xc8 bytes and from 0x148 on |
| Replay.BothPassesOrNone | dnas.go:162-183 | with a capture the reply is both passes under the raw-sliced keys or error.raw, never a single pass |
| Replay.BuildConnectReply | dnas.go:162-183 | the in-place passes compute the specified reply without touching the request |
| Replay.DerivedKeys | dnas.go:47-73 | splicing hex text equals k1=sum2[0:8], k2=sum2[8:16], k3=sum2[16:20]+sum1[0:4], seed=sum1[4:12], and fails only on a short request |
| Replay.PacketNameIff | dnas.go:94-101 | two requests have the same packet name if and only if game ID and query type agree |
| Replay.PacketNameDigits | dnas.go:94-101 | the name is the 16 lower-case hex digits of the game ID, an underscore, and the 8 of the query type |
| Replay.LoadsByName | dnas.go:105-110 | the path separator guard never rejects a packet name |
| Replay.FindReply | dnas.go:129-156 | the lookup loop computes the specified reply and does not modify the request |
| Replay.InstallFallback | dnas.go:112-156 | an install query gets its own capture, else the normal, else the unique-ID capture of the title with only byte 1 changed to 0x10 |
| Replay.OtherQueries | dnas.go:129-156 | any other query is answered by its own capture only |
| Replay.OthersAnswers | dnas.go:187-195 | outside always mode the others endpoint answers the capture as it is, for an install query without its own the relabelled normal or unique-ID one, and error.raw for a short request |
| Replay.ConnectFinds | dnas.go:162-183 | the connect endpoint finds the same captures at its own game ID offset |
| Replay.AlwaysAnswers | dnas.go:221-240 | in always mode both endpoints answer success.raw with the request's second byte, else error.raw, else nothing, and never a capture |
| Replay.EnvelopeKeys | dnas.go:76-81 | the envelope keys and seed are the four 64-bit constants |
| Replay.MissingIffUncaptured | dnas.go:129-156 | a reply is missing if and only if the request is long enough and none of the captures it may use exists |
| Replay.FallbackRefinesOff | dnas.go:162-231 | fallback equals off except for well-formed requests without a usable capture, where off gives error.raw and fallback success.raw with byte 1 of the request, or error.raw without one |
| Replay.BuildSuccessReply | dnas.go:221-231 | success.raw with byte 1 relabelled, or error.raw |
| Dispatch.FallbackOnlyForUncaptured | tls10.go:663-687 | switching the mode to fallback changes the routing result only of replayed, uncaptured requests whose gateway has a success.raw |
| Dispatch.ProxiedIff | tls10.go:664-666 | a request is proxied if and only if some prefix covers its path, and to the longest one |
| Dispatch.RoutesByName | tls10.go:663-687 | an unproxied path is answered by connect, others or a file exactly by its last element; a gateway that is not found gives an empty image |
| Dispatch.ProxiedResponse | tls10.go:663-666 | a proxied request gets the answer of the first covering prefix |
| Delivery.ConsoleRecoversPacket | tls10.go:239-715 | an honest console that asks the connect endpoint for a captured packet reads, through handshake, records, parsing and routing, a reply whose body opens under the envelope key and the keys of its own request to exactly that packet |
| Delivery.ConsoleReads | tls10.go:239-715 | whatever the mode and endpoint, the body an honest console reads is the replay's answer to the body of its request |
| Delivery.ConsoleReadsCapture | tls10.go:239-715 | an honest console that asks the others endpoint reads as body exactly the capture under its own query type |
| Delivery.ConsoleReadsSuccess | tls10.go:239-715 | in always mode it reads success.raw with its own query type in the second byte |
| LongestFirst.SortLongestFirst | config.go:119-123 | the in-place sort computes the stable longest-first order |
| LongestFirst.StableSortIff | config.go:119-123 | that order is the only sequence sorted by length that keeps equal lengths in order, so the choice of stable algorithm is immaterial |
| LongestFirst.SortedFirstMatchIsBest | dns.go:78-86 | first match after the sort is the longest match, the earliest rule on ties |
| LongestFirst.BestSpec | dns.go:76-86 | that rule exists exactly when one matches, is at least as long as every match and precedes equally long ones |
| LongestFirst.DedupeRules | config.go:127-138 | the loop with the seen map keeps the first rule of each suffix |
| LongestFirst.DedupeSpec | config.go:125-138 | every suffix survives exactly once, with the rule that came first |
| DnsRules.LookupSpec | dns.go:76-86 | for any rule list, lookup after dedupe and sort gives the IP, which may be nil, of the longest covering suffix, earliest on ties; when all rules have an IP it finds none exactly when no rule covers the name |
| DnsRules.DedupeUnneeded | main.go:150-153 | leaving dedupe out changes no lookup |
| DnsRules.CoversDetermined | dns.go:78-86 | equally long suffixes covering one name are the same string |
| DnsRules.CoversIff | dns.go:81 | a suffix covers a name that equals it or ends in a dot and it |
| DnsRules.LookupFolds | dns.go:76-86 | letter case and one final dot make no difference to a lookup |
| DnsRules.PlainQuery | dns.go:79 | a lower-case name without a final dot is looked up as it is |
| DnsRules.ReorderingUnnoticed | dns.go:76-86 | rules with distinct suffixes may be listed in any order |
| DnsRules.ConfigFileOverrides | main.go:138-151 | a config file rule for exactly the looked-up name decides, whatever the built-in suffixes |
| DnsRules.CoversLabels | dns.go:81 | for labels without dots, a suffix covers a name if and only if it is made of the name's last labels |
| DnsRules.LabelBoundariesIff | dns.go:81 | the suffixes covering a name are exactly those made of its last labels if and only if no label holds a dot |
| DnsRules.LookupIP | dns.go:78-86 | the scanning loop computes the lookup |
| DnsRules.Configure | main.go:141-153 | config file rules, then built-in ones, deduped and sorted |
| DnsRules.RulesFromSuffixes | config.go:58-66 | the loop computes the non-empty normalized suffixes in order, with the default IP |
| DnsRules.SuffixRulesSpec | config.go:58-66 | the built-in rules are those of the suffixes that are not empty once normalized, all with the default address |
| DnsRules.SuffixForm | config.go:113-115 | a suffix is brought to the form of a looked-up name, without white space around it |
| DnsRules.ProxySpec | proxy.go:63-75 | a path goes to its longest prefix, the earliest flag on ties, and to none exactly when none fits |
| DnsRules.FindProxy | proxy.go:68-75 | the index loop computes the first matching prefix |
| Text.PrefixIff | proxy.go:70 | a prefix covers a path if and only if the path is the prefix and something more |
| DnsMessage.ParseQuestionLoop | dns.go:107-140 | the loop computes the question the theorems are about |
| DnsMessage.BuildAResponse | dns.go:143-186 | the scan and the in-place header updates compute the specified answer or error |
| DnsMessage.To4Iff | dns.go:144-147 | an address has an IPv4 form if and only if it is those 4 bytes, or the 16 that map them |
| DnsMessage.ScannersAgree | dns.go:115-160 | where the question parser stops, the answer builder stops |
| DnsMessage.ReadableIsAnswerable | dns.go:143-186 | a readable question always has an answer of question end plus 16 bytes that keeps ID and question, counts one answer, and reads back as the same question |
| DnsMessage.ScanIff | dns.go:117-134 | the scan accepts exactly the encodings of lists of 1 to 63 byte labels |
| DnsMessage.SkipIff | dns.go:150-160 | the other scanner accepts exactly the encodings of lists of 1 to 255 byte labels |
| DnsMessage.QueryParses | dns.go:107-140 | a query encoded from labels is read as their dotted join and its type |
| DnsMessage.ParseQuestionIff | dns.go:107-140 | a question is read if and only if the message announces one and is a header, an encoded name, the type, two bytes and anything more |
| DnsMessage.AnswerDecodes | dns.go:176-185 | for either form of the rule's address, a resolver following the name pointer reads an A record, class IN, TTL 300, for the asked name with exactly that address |
| DnsMessage.AnswerWellFormedIff | dns.go:166-186 | the answer's sections fill the message exactly if and only if the query asked one question |
| Hints.RegionIff | hints.go:46-60 | the region found is exactly the label in front of dnas.playstation.org |
| Hints.RedirectsIff | dns.go:52-74 | a query is answered here if and only if it is an A question for a name covered by an IPv4 rule |
| Hints.RedirectIs | dns.go:52-74 | the redirect of an A question is an answer that keeps ID and question and reads as the rule's address, and it notes the region of the name |
| Hints.RegionNoted | dns.go:58-60 | a redirected name under region.dnas.playstation.org leaves exactly that region as hint |
| Hints.DottedLabelExample | dns.go:107-140 | a legal query for the one label a.b is covered by a rule for b |
| Hints.Handle | dns.go:52-74 | decision and noted region for one query, with region hints kept or not |
| Hints.HintIsLatest | hints.go:30-41 | after any run a client's hint is its own latest redirected region lookup, and absent exactly without one |
| Hints.OthersDoNotMatter | hints.go:30-41 | other clients' queries and connections never change a client's hint |
| Hints.LookupThenConnect | hints.go:66-76 | a client whose query for a host under region.dnas.playstation.org is redirected and that then connects is shown that region's certificate, whatever came before or others do between |
| Hints.CertForDefault | hints.go:66-76 | without a usable hint the default certificate is shown |
| Chain.AppendChain | https.go:72-85 | the nested loops append exactly the certificates not yet there |
| Chain.AppendedSpec | https.go:67-85 | the old chain is a prefix, all CA certificates are there and nothing else, no duplicates arise |
| Chain.AppendedInOrder | https.go:67-85 | new certificates without duplicates are appended in their order |
| Chain.AppendTwice | https.go:67-85 | appending again what is there changes nothing |

## Left out

- Sockets, listeners, goroutines, deadlines, UDP forwarding and failed network writes.
- The insides of DES, MD5, SHA-1, HMAC, RSA and the random generator. That an accepted MAC was
  issued by the writer is a hypothesis (`Channel.Unforged`), not a theorem.
- The race between sending a DNS answer and noting its region (`dns.go:57-60`): claims about hints start after the note.
- Locking in `hints.go`, the time stored with a hint, and all log text.
- `plainBuf` (`tls10.go:125`, `577-581`), which nothing fills.
- `proxy()`, `serveStatic`, `path.Base` and `gwDirFor`: library behaviour, parameters of `Dispatch.Site`.
- Loading of certificates, keys, PEM files, `dns.config` text and flags; `parseProxyRules` except for its sort.
- The two in-place passes of `connectReply` work on a copy of the stored packet, as a file read gives one.
- DnsRules.LookupIP: lower-casing is ASCII only, the case rule of DNS names (RFC 4343), where the Go library also knows other scripts.
- Tls10.Tls10Conn.HandshakeAndServe: the steps of the Go function are separate methods here.
- Hello.V3Fields: the panic of the Go code is an error value, after which nothing more is read or sent.
