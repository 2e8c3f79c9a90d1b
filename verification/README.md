# A verified model of the NTRIP caster, client and server

The repository distributes GNSS correction data: a *server* registers a mountpoint at the
*caster* with a POST request and sends it data, a *client* logs in to a mountpoint with a
GET request, and the caster forwards what each server sends to the clients of its mount.
This project models that in Dafny and proves what the parts promise together.

`dafny verify dfyconfig.toml` checks everything.

## How the model is laid out

| file | content |
|---|---|
| Text.dfy | `std::string` searching: leftmost and rightmost occurrences |
| Split.dfy | `StringSplit`, the unique leftmost cut, and whole CRLF lines |
| Base64.dfy | encoder, decoder, section 4 of RFC 4648, round trips in both directions |
| Gga.dfy | the GGA checksum: framing and comparing |
| Requests.dfy, Headers.dfy | what is read out of the header lines of a request; the same without the loops |
| Net.dfy | open descriptors, connections and the chunks sent to each |
| Caster.dfy | the caster as a state machine: tables, connections, one step per event |
| NtripCaster.dfy | the class, its methods with their loops, each proved to do its step |
| Dispatch.dfy | which payload is taken for what, by its text |
| Tables.dfy | effect of one call on the tables; table invariant of every run |
| Ownership.dfy | which descriptor has which role; what hang-ups and `Stop` close |
| SourceTable.dfy, StrayRows.dfy | which source-table row a hang-up erases; rows that go astray |
| History.dfy | how each client came into its list, in every run |
| Delivery.dfy | what each client receives, over whole runs |
| Wire.dfy, Parsing.dfy, Login.dfy | printed requests, how they are parsed, the login decision |
| Session.dfy | end to end: printed requests, decision, delivery and handshake in one run |
| Handshake.dfy, Agreement.dfy | the peers' handshakes, and their agreement with the caster |
| Watchdog.dfy | the client's receive and report loop |
| NtripClient.dfy, NtripServer.dfy | the classes, with the handshake and receive loops |

The caster's state is the ordered mount list, the source-table rows and the connections.
A descriptor may be given out again once it is closed; a connection number never is, so
statements about what a peer received survive the reuse of descriptors. An event is an
accept, a received payload or a hang-up. A payload event carries the numbers of those sends
of its step that the kernel does not complete; a chunk is sent whole or not at all.

`Ownership.WellBehaved` is the hypothesis on peers where one is needed: a peer with a role
(a mount's server or client) sends no second request, and a client sends nothing but GGA
sentences. Peers without a role may send anything. `Ownership.StepOwned` shows that this is
not a convenience: one step keeps the ownership of descriptors exactly when its peer behaves.

## What the code does that its documentation does not say

- The decoder gives one byte too many for a padded text. For what the encoder prints that
  byte is zero (section 3.5 of RFC 4648), so a stored password may end in a zero byte. Logins
  work all the same, because both sides go through the same decoder.
- A header line is recognised by a substring anywhere in it. Credentials whose Base64 text
  contains "GET" (for a client) or "POST" (for a server) are taken for a request line and are
  refused; for printed requests this is the only way that right credentials fail.
- A hang-up erases the first row that contains the leaving mountpoint between "STR;" and ";",
  whoever brought it. A row is checked against the mountpoint only when it has more than four
  sections, so that a server may bring a row that contains another mountpoint's text, or none.
  `StrayRows.NeitherRowFollows` is a run of two well-behaved servers in which one hang-up erases
  the other server's row and leaves its own. `SourceTable.RowsFollowServers` says exactly when
  that cannot happen: each row, when it is added, contains its own mountpoint's text, and no row
  present does. This can be looked up before the registration.
- A refused payload closes the descriptor and leaves the tables alone. If its sender had a
  role, the next connection on that descriptor inherits the role.
- The handshake polls 30 times but believes only the first 29 answers.
- The checksum starts behind the first character, so damage to that character goes unnoticed.

## Model

| member | source | states |
|---|---|---|
| Split.StringSplit | src/ntrip_caster.cc:106-133 | the loop ends and returns, in order, the non-empty fields of the leftmost cut, and the last field when it is as long as the divider at least |
| Split.FieldsAreTheCut | src/ntrip_caster.cc:111-132 | joined with the divider the fields give back the source, and each cut is the leftmost possible one |
| Split.FieldsUnique | src/ntrip_caster.cc:111-132 | no other list of fields has that property |
| Split.SplitLines | src/ntrip_caster.cc:106-133 | whole CRLF lines come back exactly, a closing blank line is dropped |
| Split.SplitOpenLine | src/ntrip_caster.cc:127-131 | an unfinished last line is given a CRLF if it has two characters or more, and is dropped otherwise |
| Split.SplitJoined | src/ntrip_caster.cc:106-133 | fields joined with a one-character divider and split come back without the empty ones |
| Base64.Base64Encode | src/ntrip_util.cc:68-90 | for an empty output the encoding of RFC 4648; otherwise the codes are appended and the padding depends on the total length |
| Base64.EncodedLength | src/ntrip_util.cc:85-88 | the length is 4*ceil(n/3), and the '=' characters are those of the RFC |
| Base64.AlphabetIs | src/ntrip_util.cc:60-61 | the table is the alphabet of the RFC, by character numbers |
| Base64.CodesStep | src/ntrip_util.cc:70-84 | the byte-wise shifts and masks give the four digits of the 24-bit group |
| Base64.Base64Decode | src/ntrip_util.cc:92-114 | refuses exactly the empty text and lengths off four, leaving the output; otherwise the decoded bytes |
| Base64.ForeignReadsSlash | src/ntrip_util.cc:98-112 | a character that is not in the alphabet decodes like '/' |
| Base64.PaddingEnds | src/ntrip_util.cc:101-109 | what follows the first padded group is not looked at |
| Base64.RoundTrip | src/ntrip_util.cc:68-114 | decoding an encoding gives the bytes, followed by one zero byte if padded |
| Base64.RoundTripText | src/ntrip_util.cc:68-114 | encoding undoes decoding on whole groups of alphabet characters, three bytes for four of them |
| Gga.BccCheckSumCompareForGGA | src/ntrip_util.cc:50-58 | the XOR between the first character and '*' minus the number behind it |
| Gga.GGAFrameGenerate | src/ntrip_util.cc:137-143 | the frame is body, '*', two upper-case hex digits of the XOR, CRLF; the zero byte in the loop is harmless; the comparison gives 0 |
| Gga.FrameCompares | src/ntrip_util.cc:50-58 | comparing a frame gives the difference of the true and the written checksum |
| Gga.AnyNumberCompares | src/ntrip_util.cc:50-58 | and so it is for any hexadecimal number behind the '*', in either case |
| Headers.MountOfSpec | src/ntrip_caster.cc:394-400 | the mountpoint is what stands between the first '/' and the next blank, and there is none otherwise |
| Headers.CredentialTextSpec | src/ntrip_caster.cc:410-416 | the encoded credentials stand between the last blank and the next carriage return |
| Headers.UserPasswordSpec | src/ntrip_caster.cc:417-421 | user and password are the two sides of the first ':' of the decoded text |
| Headers.RowOfSpec | src/ntrip_caster.cc:427-428 | the row is what stands behind the first blank |
| Headers.ReadPostFinds | src/ntrip_caster.cc:392-423 | when no line stops the loop, the last request line gives the mountpoint and the last credentials line user and password |
| Headers.ReadPostStops | src/ntrip_caster.cc:392-423 | the first line that cannot be used refuses the request, and is answered only if it names a taken mountpoint |
| Headers.ReadRowSpec | src/ntrip_caster.cc:424-435 | the last row line counts, and each must pass the section check |
| Headers.ReadGetLogin | src/ntrip_caster.cc:456-480 | the last GET line and the last credentials line before the first unusable line count |
| Headers.ReadGetVersion | src/ntrip_caster.cc:457-458 | the reply is in the old style exactly if a GET line up to there names HTTP/1.0 |
| Gga.ChangeIsNoticed | src/ntrip_util.cc:50-58 | one replaced body character is noticed if and only if it is not the first |
| NtripCasterClass.NtripCaster.ServerConnectRequest | src/ntrip_caster.cc:384-446 | both header loops, the mountpoint check, reply and table updates do the step of the state machine |
| NtripCasterClass.NtripCaster.ReadGetLines | src/ntrip_caster.cc:450-480 | the header loop with its breaks keeps what it had when it stopped |
| NtripCasterClass.NtripCaster.ClientConnectRequest | src/ntrip_caster.cc:448-497 | the search through the mounts with its replies does the step of the state machine |
| NtripCasterClass.NtripCaster.TryToForwardServerData | src/ntrip_caster.cc:371-382 | one send to each client of the first mount served by the sender |
| NtripCasterClass.NtripCaster.ParseData | src/ntrip_caster.cc:303-339 | the dispatch on the payload's text does the step of the state machine |
| Dispatch.ServerPayload | src/ntrip_caster.cc:322-325 | a payload with neither "GET /" nor "POST /" goes to the clients of the first mount its sender serves |
| Dispatch.OtherPayload | src/ntrip_caster.cc:322-335 | from anyone else it is let pass if it has "$GPGGA," or "$GNGGA,", and refused if not |
| Dispatch.OtherRequest | src/ntrip_caster.cc:308-321 | a request that names no version, or HTTP/1.0 without a GET, is refused without an answer |
| Dispatch.PostComesFirst | src/ntrip_caster.cc:313-316 | a text with both requests is a POST request |
| Dispatch.ReportIsLetPass | src/ntrip_caster.cc:327-333 | a position report that the client makes never costs it its connection |
| NtripCasterClass.NtripCaster.Disconnect | src/ntrip_caster.cc:264-301 | the nested loops with their erasures in place do the step of the state machine |
| NtripCasterClass.NtripCaster.ClearClientConnection | src/ntrip_caster.cc:81-91 | closes the clients in order, empties the list, changes no other mount |
| NtripCasterClass.NtripCaster.ClearAllConnection | src/ntrip_caster.cc:93-104 | closes clients and server of every mount and empties the list |
| NtripCasterClass.NtripCaster.Stop | src/ntrip_caster.cc:177-193 | the table part of Stop |
| NtripCasterClass.NtripCaster.ThreadHandler | src/ntrip_caster.cc:199-242 | the event loop computes the run of the state machine |
| Tables.ServerConnectEffect | src/ntrip_caster.cc:384-446 | a POST registers if and only if its headers are acceptable and the reply goes out, and then with exactly the parsed login and row; otherwise no table changes |
| Tables.AdmitDecision | src/ntrip_caster.cc:481-496 | a login that matches a mount makes its sender a client of it if the reply goes out; a lost reply or a login that matches none is answered 401 with the next send |
| Tables.ParseDataEffect | src/ntrip_caster.cc:303-339 | one call changes no table, adds one mount and one row, or adds one client; only a call that returns 0 changes any |
| Tables.TablesAlwaysHold | src/ntrip_caster.cc:199-301 | in every run, for all bytes: names distinct, nothing empty, never fewer rows than mounts, connections distinct |
| Ownership.ServerHangup | src/ntrip_caster.cc:264-301 | a server's hang-up closes it and all its clients, each once, and nothing else, and removes its mount |
| Ownership.ClientHangup | src/ntrip_caster.cc:282-300 | a client's hang-up closes it alone and takes it off its list |
| Ownership.StepOwned | src/ntrip_caster.cc:199-301 | a step keeps all table descriptors open and in one role exactly when its peer behaves; no step from such a state closes a descriptor that is not open |
| Ownership.AlwaysOwned | src/ntrip_caster.cc:199-301 | so it is in every run of well-behaved peers, and no close ever fails |
| Ownership.BareClose | src/ntrip_caster.cc:227-231 | the payload "GET /" of a registered peer leaves a closed descriptor in the tables, and the next connection on it inherits the role |
| Ownership.ClosedTwice | src/ntrip_caster.cc:227-231 | and when its server hangs up, the caster closes the descriptor of such a client a second time |
| Ownership.StopClosesAll | src/ntrip_caster.cc:177-193 | Stop closes each table descriptor once and no other and empties both tables |
| SourceTable.KeyFindsOwnRow | src/ntrip_caster.cc:271-279 | the substring search for a mount's key succeeds in that mount's row and in no other |
| SourceTable.CheckedRowIsFor | src/ntrip_caster.cc:424-434 | a well-shaped row that passes the section check starts with "STR;", the mountpoint and ";" |
| SourceTable.HangupErases | src/ntrip_caster.cc:271-280 | a server's hang-up erases the first row that contains its key, and leaves all rows exactly when none does |
| SourceTable.StepOwnRows | src/ntrip_caster.cc:264-281 | while each server would take its own row along, one step keeps that if and only if a row it adds contains its mountpoint's key and no present row does |
| SourceTable.RowsFollowServers | src/ntrip_caster.cc:264-281 | in every run, whatever the peers send: at each point each server would take its own row along, if and only if each registration brought such a row |
| SourceTable.AlignedOwnRows | src/ntrip_caster.cc:264-281 | in an aligned table the first row that matches a mount's key is its own |
| SourceTable.AlwaysAligned | src/ntrip_caster.cc:264-281 | in every run with well-shaped accepted rows, rows and mounts stay index-aligned, and each server would take its own row along |
| StrayRows.ShortRowFits | src/ntrip_caster.cc:424-434 | the row "STR;m;m" passes the section check for every mountpoint and contains the key of m |
| StrayRows.WrongRowErased | src/ntrip_caster.cc:271-280 | with such a row of another server before its own, a leaving server takes the other's row and leaves its own |
| StrayRows.EmptyRowStays | src/ntrip_caster.cc:271-280 | an empty row stays when its server has left |
| StrayRows.NeitherRowFollows | src/ntrip_caster.cc:264-281 | a concrete run of two well-behaved servers with both faults |
| History.RegistrationHistory | src/ntrip_caster.cc:436-444 | every mount was registered by a POST that says exactly what it stores, and has been there ever since |
| History.AdmissionHistory | src/ntrip_caster.cc:448-497 | in every run each client was put into its mount's list by a GET, and no POST, naming exactly the mount's credentials, after the mount's registration; mount and client have been there ever since |
| History.ForwardedOnlyToAdmitted | src/ntrip_caster.cc:371-382 | in every run a forwarded payload reaches only clients so admitted to the sender's mount |
| Delivery.AttachedStep | src/ntrip_caster.cc:199-242 | one step sends an attached client its server's payload, unless that send fails, and nothing else, and leaves it attached or closed |
| Delivery.StreamDelivery | src/ntrip_caster.cc:371-382 | with well-behaved peers, whatever sends fail, a client has received its acceptance, "ICY 200 OK" or "HTTP/1.1 200 OK" as its request asks, and then exactly its own server's payloads since, in order, but for those whose own send failed |
| Delivery.NothingIsLost | src/ntrip_caster.cc:371-382 | where the sends go out, that is all the server's connection sent |
| LoginDecision.RegistrationOfPrinted | src/ntrip_server.cc:130-140 | print and parse are inverse: the printed mountpoint, user, password up to the zero byte, and the row with CRLF |
| LoginDecision.ServerRequestRegisters | src/ntrip_caster.cc:384-446 | a printed server request registers just that if and only if the mountpoint is free, the encoded credentials lack "POST", the row has at most four sections or the mountpoint as second and third one, user and stored password are not empty and the reply goes out; every answer by its text |
| LoginDecision.ClientRequestDecision | src/ntrip_caster.cc:448-497 | a client request of either version against a registered mount: the exact decision, table change and reply text, "ICY 200 OK" for HTTP/1.0 |
| LoginDecision.UnknownMountRefused | src/ntrip_caster.cc:481-496 | a client request for a mountpoint that is not mounted is answered 401 and changes no table |
| LoginDecision.EndToEndLogin | src/ntrip_caster.cc:456-493 | once a printed server request was accepted and while its mount is there, a client request of either version is admitted to it if and only if user and password are equal, their encoding lacks "GET" and the reply goes out; with the reply text |
| LoginDecision.EncodedGet | src/ntrip_caster.cc:457-466 | credentials whose encoding contains "GET" exist |
| LoginDecision.EncodedPost | src/ntrip_caster.cc:393-409 | credentials whose encoding contains "POST" exist |
| Parsing.UserPasswordOfLine | src/ntrip_caster.cc:410-421 | from the printed credentials line the caster reads the printed user and the password up to the zero byte |
| Parsing.MountOfRequestLine | src/ntrip_caster.cc:394-400 | from the printed request line it reads the printed mountpoint |
| Wire.ClientSplits | src/ntrip_client.cc:134-139 | the caster's lines of the printed client request are the printed lines |
| Wire.ClientPrintsVersionOne | src/ntrip_client.cc:134-139 | the library's client prints the request of version HTTP/1.1 |
| Wire.DecimalIs | src/ntrip_server.cc:132 | the port is printed as its decimal number |
| Wire.ServerSplits | src/ntrip_server.cc:130-140 | the caster's lines of the printed server request are the printed lines |
| Session.ServerStays | src/ntrip_caster.cc:264-281 | a mount registered by a printed request is there as long as its server's connection is open |
| Session.ClientReceives | src/ntrip_caster.cc:303-339 | a client request of either version to a mount whose printed server request was accepted, server still connected: with equal credentials the client's connection receives the acceptance text and then exactly that server's payloads, else the refusal text and nothing more |
| Session.ClientLearns | src/ntrip_client.cc:150-199 | and its handshake succeeds if and only if it was admitted and the reply came in time |
| Handshake.SuccessIs | src/ntrip_client.cc:150-199 | a handshake succeeds if and only if one of the first 29 polls brings "HTTP/1.1 200 OK" or "ICY 200 OK" and none before it brought one of them or the end of the stream |
| Handshake.AnsweredIs | src/ntrip_client.cc:152-172 | an acceptance with the 30th poll is read too, but not believed |
| Handshake.SourceTableIsNoAnswer | src/ntrip_client.cc:156-157 | the header of a source table does not end a handshake |
| NtripClientClass.NtripClient.Run | src/ntrip_client.cc:72-216 | success if and only if the service runs already, or the socket connects, the request goes out, the handshake succeeds and the GGA sentence goes out; a socket that does not succeed is closed once; and the caster agrees |
| NtripServerClass.NtripServer.Run | src/ntrip_server.cc:68-204 | likewise, without a GGA sentence |
| Agreement.RefusalsDoNotAccept | src/ntrip_caster.cc:405 | no refusal text contains an acceptance marker |
| Agreement.AlwaysAgrees | src/ntrip_caster.cc:436-497 | with well-behaved peers only registered connections were sent an acceptance, and each of them as its first text |
| Agreement.HandshakeAgreement | src/ntrip_client.cc:150-199 | a peer's handshake succeeds if and only if the caster has registered its connection and the first text came in time |
| NtripClientClass.NtripClient.ThreadHandler | src/ntrip_client.cc:239-291 | the receive loop does the passes of the watchdog, hands over each payload, sends each reported sentence and closes its socket when it ends |
| Watchdog.AlwaysSoundReports | src/ntrip_client.cc:269-274 | each reported sentence is one the application set, or has the right checksum |
| Watchdog.AlwaysCounts | src/ntrip_client.cc:244-276 | in every run the counter is three minus the reports since the last payload, and at most three reports go out in silence |
| Watchdog.PassOutcome | src/ntrip_client.cc:249-276 | in every run, what one more pass does: a report is due when the interval has passed since the last report, whatever was received; it goes out unless the buffer was full or three went unanswered, which ends the loop; it says what the application set last |
| Watchdog.BegunIsLastReport | src/ntrip_client.cc:265-269 | in every run the interval counts from the last report |
| Watchdog.FourthExpiryExits | src/ntrip_client.cc:265-274 | a pass without payload ends the loop exactly when the interval expires after three unanswered reports |
| Watchdog.SilenceEnds | src/ntrip_client.cc:249-276 | in silence, with a clock that goes on, the loop ends after exactly as many reports as the counter says; the measure is the counter and the time left |

## Left out

- Threads, `Thread` and joining: each loop is modelled on its own, sequentially; a change of `service_is_running_` by another thread is seen at the head of a pass.
- NtripCasterClass.NtripCaster.Stop: the listening socket, the `epoll` descriptor and the join are not in the model.
- NtripCasterClass.NtripCaster.ThreadHandler: one event per wait; the loop may end after any of them, as it does on an `epoll` error.
- Sockets, `epoll` registration, keepalive, `fcntl` and the Windows branches: only open descriptors, send results and received payloads remain, given by the environment.
- Several events of one `epoll_wait` batch, one of which closes another's descriptor: events come one at a time, from open descriptors.
- TCP fragmentation and partial sends: a request arrives in one payload, a chunk is sent whole or not at all.
- `snprintf` truncation: admissible configurations print requests that fit the 4096-byte buffer.
- Gga.BccCheckSumCompareForGGA: covers ASCII text with a '*' and a plain number of at most seven hex digits behind it; `%x` would also take blanks, a sign or a 0x prefix, and a text without '*' is read past its end.
- The checksum that ParseData computes on GGA payloads: its result is not used, so the call is not in the model.
- Gga.GGAFrameGenerate: the body of the sentence, made from position and local time with floating-point formatting, is an arbitrary ASCII text without '*'.
- `SendSourceTableData`: nothing calls it; the rows it would print are modelled.
- `NtripServer::SendData`, `NtripServer::ThreadHandler` and the unimplemented `PushData`: a send and a loop that waits for the end of the stream.
- A failing `accept`: each accept event brings a new connection.
- Logging and the examples: they change no state.
- The agent names and the caster's version text, which the build fills in: the agent is any header value without the texts the caster looks for.
