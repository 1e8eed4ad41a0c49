# kube-gateway, verified

kube-gateway puts a transparent gateway between a pod and the network. Three eBPF hooks redirect the
pod's connects to the gateway and remember where they wanted to go; the gateway asks for that
destination, talks to the gateway of the destination's pod, and the two of them carry the bytes. Older
connections are flushed with TCP resets. A policy may rewrite or refuse the AI requests that pass.

This project models these four parts in Dafny 4.11 and proves what they guarantee, for every run and
every input, and where the guarantee ends.

| module | models |
|---|---|
| `ByteOrder`, `Words` | fixed-width words as ranges of integers, byte order, bit masks |
| `Mirrors` | the three hooks, as methods over the shared maps and the contexts they rewrite |
| `Redirection` | runs of the hooks over any number of sockets, in any interleaving |
| `History`, `Misdirection` | what a query answers, told from the events alone, and the runs in which that is wrong |
| `Preamble` | the printed destination that one gateway sends the other |
| `Relay`, `RelayTheorems`, `RelayProgress`, `RelayHazards` | two gateways, client and server, as a state machine over byte streams |
| `Gateways` | the code of the two gateways, run against everything else that may happen |
| `Composition` | redirection and relay together, for one connection and for many at once |
| `Chains` | which listener a dial reaches, and how many dials a connect can cause |
| `Resets`, `SocketCodec` | the connection flusher, its sequence numbers, and its netlink messages |
| `Rewriter`, `Policy` | word replacement, model substitution, refusal, response filter, the request pump |
| `Traces`, `Selections` | sequences in which each element leads to the next; which elements of a sequence were taken |

`dafny verify dfyconfig.toml` checks everything.

## How to read the results

**Redirection.** A run is a sequence of connects, socket operations, closes and queries. For any such
sequence, `AnswerExactly` says what a query for a port is answered with: what the last redirected connect
asked for among those that share their low cookie half (the 32-bit key of `map_socks`) with the socket that
was linked to the port last. `QueryIsRightExactlyWhen` draws the consequence for one socket: its query is
right exactly when both tables had room, no later redirected connect took its key, and no establishment
under another key took its port, or else the connect that answers instead asked for the same endpoint. In
runs that the kernel permits (`Redirection.Legal`: one connect per socket, at most one establishment while it
is open, distinct source ports among live redirected sockets), with cookies that differ in their low halves
and at most 20000 redirected sockets, nothing of the kind can happen (`QueryReturnsWanted`,
`CapacityInvariant`). Each of the three hazards has a lemma and a concrete permitted run: a later connect with
the same low half (`CollisionExample`), a bystander that was never redirected but shares another socket's low
half and gets a redirected one's port number (`BystanderExample`), and 20001 connects (`FullTableExample`).

**Relay.** Reads return pieces of any size. The server receives the client's stream exactly when the far
gateway's single read got the whole preamble, and the client receives the server's stream exactly when
the near gateway's acknowledgement read took one byte; otherwise what is left over or missing is stated
byte for byte (`StreamsAreAccountedFor`). Runs of the first kind refine a direct connection in the bytes
each end sends and receives (`RelayRefinesDirect`), and so does each relay of many that run at once, next to
any events at the hooks (`EveryConnectionIsDirect`). Runs come to an end only where all bytes have been
delivered or a dial must fail (`EveryRunDelivers`). Relays do not refine a direct connection in the end of a
stream: neither gateway passes one on, so once a server has been dialled and no error occurs, neither end ever
sees the other close (`EndsAreNeverPassedOn`). `ShortReadExample` and `GreetingIsLost` are runs of the other
kind.

**Chains of dials.** A connect can make a gateway dial, and that dial another one. `BoundedExactlyWhen` says
for any network and any connect, by whomever and to whatever, when three dials (its own included) are the most
it can cause: exactly when no external listener accepts it, and, if an internal one does, that gateway's pod is
safe. A pod is safe when the cluster port is one of the four exempt ports, and so is the proxy port of each
gateway its tables can lead to whose listener is reachable by an address that the loopback check does not know,
as every gateway bound to 0.0.0.0 is (if its hooks redirect anything). For redirected connects this makes
`ShortExactlyWhenSafe`. With the default ports every pod is safe, and what remains is exactly the connects to
port 18001 of a gateway's pod (`DefaultPortsAreSafe`): the hook leaves them alone, and the external listener
takes the application's bytes for preambles, one after the other. So in every network with a gateway there are
connects that can cause any number of dials (`ClusterPortIsUnbounded`), whatever the ports.

**Flusher.** Flags, once set, stay set: from the first packet of the watched connection on, every eligible
packet is answered with resets, of whatever connection it is (`OtherConnectionsToo`). The sequence numbers
step by the window the packet advertises, so the tiling theorem is about windows of that unscaled size; its
first number is the exact match of section 3.2 of RFC 5961.

**Policy.** Rewriting removes every configured word when replacements are not empty and share no character
with the words; both conditions matter (`EmptyReplacementRecreates`, `SharedCharacterRecreates`). For a single
rule, with any word and any replacement, `RemovesWordExactlyWhen` has the exact condition, a finite test on how
the replacement and the word overlap; for lists of rules for single characters `SingleCharactersExactly` has
it. Model rules are applied one after the other; `SubstituteIsLookupExactlyWhen` says when that differs from
the first matching rule. The repository's
README shows `caseSensitive`, `maxTokens` and a developer-prompt list in policies; the code never reads them,
and neither does the model: matching is exact.

**Prefix lengths.** A shift by 32 or more is undefined in C, so the mask for prefix length 0 is a parameter
of the model (`shiftedOut`); `ZeroPrefixAcceptsAll` says for which value the default route would work.

## Model

| member | source | states |
|---|---|---|
| `Mirrors.Hooks.Connect4` | ebpf/mirrors.c:18-122 | the hook records the destination and rewrites the context for exactly the connects that are to be redirected, and otherwise changes nothing; in particular nothing for a process that is not in the table of the pod's processes, outside tunnel mode |
| `Mirrors.RedirectsExactlyWhen` | ebpf/mirrors.c:18-95 | to be redirected are exactly the TCP connects over IPv4 to an address of the block and a port other than 8080, 8181, 18000 and 18001, by a process other than the proxy: in tunnel mode any, else one in the pod's process table, its id compared with sign extension; all on the call's own fields |
| `Mirrors.ConnectEffect` | ebpf/mirrors.c:97-104 | a redirected connect leaves the address and port of its sockaddr under the low half of its cookie, if that key is there already or fewer than 20000 are; any other leaves the tables alone |
| `Mirrors.Hooks.SockOps` | ebpf/mirrors.c:129-152 | an IPv4 establishment of a socket on record links its source port to its cookie, subject to the map's capacity; nothing else changes |
| `Mirrors.SockOpEffect` | ebpf/mirrors.c:129-144 | exactly an active establishment (4) over IPv4 (2) of a socket on record leaves its cookie under the local port, if that key is there already or fewer than 20000 are |
| `Mirrors.Hooks.SockOpt` | ebpf/mirrors.c:161-211 | a query answers in the caller's buffer what port, cookie and record lead to, writing eight bytes and leaving the rest; every other call leaves context and buffer alone |
| `Mirrors.SockAddrIs` | ebpf/mirrors.c:200-202 | the eight bytes written: family 2 in the machine's order, then port and address in network order |
| `Mirrors.AnswerIs` | ebpf/mirrors.c:181-203 | what the gateway decodes: the address and port on record under the cookie of the port, octet for octet, or nothing if either entry is missing |
| `Mirrors.MaskTest` | ebpf/mirrors.c:36-43 | the bitwise mask test is a range test: it accepts exactly network .. network + 2^(32-p) - 1, and nothing when the network has host bits set (section 3.1 of RFC 4632) |
| `Mirrors.ZeroPrefixAcceptsAll` | ebpf/mirrors.c:36 | prefix length 0 accepts every address exactly when the undefined shift yields an empty mask |
| `ByteOrder.AndHighMask` | ebpf/mirrors.c:36-41 | and-ing with ones in the high bits clears the low bits, by induction over the bits |
| `Mirrors.ByteOrderRoundTrip` | ebpf/mirrors.c:32-46 | the endpoint stored by connect, written by getsockopt and decoded in Go is the one in the application's sockaddr |
| `Mirrors.RecordIsFaithful` | ebpf/mirrors.c:100-104 | two connects leave equal records exactly when they ask for the same endpoint |
| `Mirrors.RedirectLeadsToProxy` | ebpf/mirrors.c:106-110 | the rewritten context fields decode to the configured proxy address and port |
| `Mirrors.LoadedConfigMeans` | gateway/pkg/manager/manager.go:59-78 | with the configuration that the gateway loads, a redirected connect goes to the proxy given on the command line, its port cut to 16 bits; the proxy's process id and the mode are the ones given; and a network of 1 to 4 whole octets means the addresses that begin with them, whatever the bits of the prefix length beyond the low byte |
| `Redirection.InvHolds` | ebpf/mirrors.c:97-143 | in every run the record table holds exactly the recorded sockets' requests, and the port table leads live recorded sockets' ports to them |
| `Redirection.QueryReturnsWanted` | ebpf/mirrors.c:181-203 | a query for a live established recorded socket returns what that socket asked for, in every interleaving and after any reuse of ports |
| `Redirection.RecordedIffRoom` | ebpf/mirrors.c:104 | a redirected socket is on record, for good, exactly when its connect found room |
| `Redirection.PortAnswers` | ebpf/mirrors.c:184-192 | in a permitted run every port entry answers with the request of a socket that was established at the port; a port without an entry gets no answer |
| `Redirection.CapacityInvariant` | ebpf/mirrors.h:44-56 | the port table is never larger than the record table, every port leads to a record, and up to 20000 redirected sockets all are recorded |
| `Redirection.NoUpdateRefused` | ebpf/mirrors.c:104-143 | while at most 20000 sockets have been redirected, each update a hook makes is in the table afterwards |
| `Redirection.RecordsComeFromPodTraffic` | ebpf/mirrors.c:20-104 | in any run at all, each record stems from a connect, TCP over IPv4, to the recorded address and port, by a process that is not the proxy and, outside tunnel mode, is in the pod's process table; the address passes the mask test, for every prefix length, and the port is not 8080, 8181, 18000 or 18001 |
| `History.AnswerExactly` | ebpf/mirrors.c:97-203 | in any run at all, whatever the cookies, ports and order, what a query is answered with: the request of the last redirected connect under the key of the socket linked to the port last |
| `History.QueryIsRightExactlyWhen` | ebpf/mirrors.c:97-203 | in any run at all, a socket's query is right exactly when none of four hazards struck (no room for the record, no room for the port, its key taken, its port taken under another key) or the connect that answers instead asked for the same endpoint |
| `History.OwnConnectAnswersExactly` | ebpf/mirrors.c:97-203 | its own connect is the one that answers exactly when none of the four struck |
| `History.ConnectTakesOver` | ebpf/mirrors.h:47 | in any run, a redirected connect under the key of a port's socket takes over the port's answers |
| `History.EstablishmentTakesOver` | ebpf/mirrors.c:135-144 | in any run, an establishment at a port whose socket's key is on record, be it a new holder of the port or a bystander, takes over the port's answers |
| `History.RefusedConnectIsMisdirected` | ebpf/mirrors.c:104 | in any run, a redirected socket left off a full table is answered as the former holder of its port |
| `Misdirection.FullTableMisdirects` | ebpf/mirrors.c:104 | in a permitted run with the table full, a redirected socket that reuses a port is sent to the former holder's endpoint |
| `Misdirection.FullTableExample` | ebpf/mirrors.h:9 | a permitted run of 20001 connects in which that happens |
| `Misdirection.CollisionOverwrites` | ebpf/mirrors.h:47 | in a permitted run, a later redirected connect with the same low cookie half takes over a live socket's answer |
| `Misdirection.CollisionExample` | ebpf/mirrors.h:47 | a concrete run of three events in which that happens |
| `Misdirection.BystanderDiverts` | ebpf/mirrors.c:135-144 | in a permitted run, a socket that was not redirected diverts the queries for its local port if its low cookie half is another socket's key |
| `Misdirection.BystanderExample` | ebpf/mirrors.c:135-144 | a concrete run of five events in which that happens |
| `Redirection.FindTarget` | gateway/pkg/connection/utils.go:49-97 | the gateway's query through the hook yields the answer of the tables |
| `Redirection.Replay` | ebpf/mirrors.c:18-211 | the hook methods, fired in any order, have the effect of the run, and each query gets the answer of its moment |
| `Preamble.ParsePrint` | gateway/pkg/connection/connection.go:129-151 | parsing a printed destination gives it back |
| `Preamble.ParseExactly` | gateway/pkg/connection/connection.go:193-205 | any string at all: it names an endpoint exactly when it is the endpoint's canonical address, a colon and digits that make its port, of which there may be none, and leading zeros |
| `Preamble.PrintedBytes` | gateway/pkg/connection/connection.go:129-151 | the bytes of a printed destination: four numbers with dots, 46, between them, a colon, 58, and the port |
| `Preamble.PrintedExample` | gateway/pkg/connection/connection.go:129-151 | the 13 bytes of 10.244.0.5:80 |
| `Preamble.PrintIsInjective` | gateway/pkg/connection/connection.go:199 | the far gateway's string comparison with its own address is true exactly for its own address and port |
| `Preamble.PrintFits` | gateway/pkg/connection/connection.go:192-193 | a printed destination has 9 to 21 bytes, so it fits the 256-byte read |
| `Preamble.PartialPreamble` | gateway/pkg/connection/connection.go:193-205 | a preamble cut short leads to the destination only if the port is 0 and just its digit is missing |
| `Relay.StepKeepsInv` | gateway/pkg/connection/connection.go:150-218 | every step of client, server and both gateways keeps the account of every byte in both directions |
| `Relay.SizesAndBytes` | gateway/pkg/connection/connection.go:156-218 | the reads before the pumps take at most 256 bytes and can take as many, the copy loops at most 32768; the far gateway's answer is the byte 89 |
| `RelayTheorems.StreamsAreAccountedFor` | gateway/pkg/connection/connection.go:150-218 | in every reachable state the preamble read has taken preamble bytes only, the server's bytes are the preamble's rest and then the client's, and the client's are the server's minus what the acknowledgement read took after the 'Y' |
| `RelayTheorems.WholePreambleExactly` | gateway/pkg/connection/connection.go:192-205 | the server gets the client's stream exactly when the preamble was read whole; the dialled endpoint is then the wanted one |
| `RelayTheorems.OneByteAckExactly` | gateway/pkg/connection/connection.go:156-159 | the client gets the server's stream exactly when the acknowledgement read took one byte |
| `RelayTheorems.NothingWithoutDial` | gateway/pkg/connection/connection.go:199-209 | a refused or failed dial leaves both ends without a byte |
| `RelayTheorems.RelayRefinesDirect` | gateway/pkg/connection/connection.go:122-219 | in the bytes that its ends send and receive, every such run is step for step a run of a direct connection to the wanted endpoint |
| `RelayHazards.ShortReadMisdials` | gateway/pkg/connection/connection.go:192-205 | a read that misses the last digit of the port, for every endpoint with a port of at least two digits: the port without it is dialled, and the digit goes to its server |
| `RelayHazards.ShortReadExample` | gateway/pkg/connection/connection.go:192-205 | for 1.1.1.1:80 that is port 8 |
| `RelayHazards.GreetingIsLost` | gateway/pkg/connection/connection.go:156-159 | a greeting of 1 to 255 bytes by the server can be swallowed whole with the 'Y' |
| `RelayHazards.EndsAreNeverPassedOn` | gateway/pkg/gateway/copy_gateway.go:9-22 | without errors the far gateway closes its connections exactly when its dial was refused or failed, and the near one only after it: once a server is dialled, the end of either end's stream never reaches the other |
| `RelayProgress.EveryRunDelivers` | gateway/pkg/gateway/copy_gateway.go:9-22 | from every reachable state without a hang-up, every run without sends, hang-ups and failing dials is finite, and it can go no further exactly where all bytes have been delivered or the dial is bound to fail |
| `RelayProgress.NeverStuck` | gateway/pkg/gateway/copy_gateway.go:9-22 | from every such state with a dial that can succeed, some run delivers all bytes |
| `Gateways.Session.InternalProxy` | gateway/pkg/connection/connection.go:122-170 | the near gateway's code, in source order, with anything that the others may do between its reads and writes and reads of any size, yields a run of the relay. It waits only while there is neither a reply nor an end of the stream; otherwise its run contains the read of the reply, and it copies until its copying fails, or else until all that the far gateway sent is handed over and that gateway has stopped; as long as it has not stopped, nothing is left to copy the other way either |
| `Gateways.Session.HandleExternalConnection` | gateway/pkg/connection/connection.go:189-219 | the far gateway's code likewise: it waits only while there is nothing to read; what it dials is what the bytes it read name, unless that is its own address or out of reach; a dial that succeeds is answered, and then it copies and hangs up as the near one does |
| `Gateways.Session.CopyGateway` | gateway/pkg/gateway/copy_gateway.go:9-22 | both copy loops of a side, interleaved with each other and with everyone else, make steps of the relay only. Unless the copying fails, the main one leaves nothing of what the other gateway sent, and it ends exactly when that gateway has stopped; until then the other loop leaves nothing either |
| `Gateways.Session.CopyAllUp` | gateway/pkg/gateway/copy_gateway.go:11-16 | undisturbed, the client-to-server loop of either gateway hands over everything it found, in order, and changes nothing else |
| `Gateways.Session.CopyAllDown` | gateway/pkg/gateway/copy_gateway.go:11-16 | so does the server-to-client loop of either |
| `Composition.RedirectedConnectionIsDirect` | gateway/pkg/connection/connection.go:122-219 | a redirected connection carried by two gateways refines a direct connection to the endpoint the application asked for |
| `Composition.EveryConnectionIsDirect` | gateway/pkg/connection/connection.go:66-219 | any number of connections at once, their relays interleaved with each other and with events at the hooks in any way: each refines a direct connection to the endpoint that its own socket asked for |
| `Composition.RelaysAreOwn` | gateway/pkg/connection/connection.go:66-219 | each relay started with its own socket's endpoint, and only its own steps have moved it |
| `Chains.RedirectedReachesOwnGateway` | ebpf/mirrors.c:106-110 | a redirected connect reaches the internal listener of its own pod, wherever it is bound |
| `Chains.BoundedExactlyWhen` | gateway/pkg/connection/connection.go:44-219 | for any network and any connect, redirected or not: three dials are the most it can cause exactly when no external listener accepts it and no internal listener of an unsafe pod |
| `Chains.ConnectIsBoundedExactlyWhen` | ebpf/mirrors.c:18-122 | the same in terms of the connect that the hook sees |
| `Chains.SafeLeavesClusterPort` | gateway/pkg/connection/connection.go:55-64 | in a safe network, exactly when no external listener accepts it |
| `Chains.ClusterPortIsUnbounded` | gateway/pkg/connection/connection.go:189-205 | in every network with a gateway, connects of its pod to a gateway's cluster port, exempt or not, have chains of every length, as their bytes are read as preambles |
| `Chains.RankDecreases` | gateway/pkg/connection/connection.go:122-219 | from a safe pod's internal listener on, each dial has a smaller rank than the dial that caused it |
| `Chains.BoundedChain` | gateway/pkg/connection/connection.go:122-219 | the bound in one direction: whatever the tables went through, the source ports, the bytes and the read sizes |
| `Chains.ChainsAreShort` | gateway/pkg/connection/connection.go:122-219 | in a safe configuration no redirected connect causes more than three dials, its own included |
| `Chains.ShortExactlyWhenSafe` | gateway/pkg/connection/connection.go:44-64 | three dials are the most for redirected connects exactly when the configuration is safe: the cluster port is exempt, and so is the proxy port of every redirecting gateway that has an alias the loopback check does not know |
| `Chains.OpenClusterPort` | gateway/pkg/connection/connection.go:189-205 | with a cluster port that is not exempt, connects that reach an internal listener have chains of every length too |
| `Chains.AliasExample` | gateway/pkg/connection/connection.go:199 | a gateway bound to 0.0.0.0 with a proxy port that is not exempt dials itself, and with an old port entry dials once more |
| `Chains.DefaultPortsAreSafe` | gateway/pkg/manager/manager.go:144-148 | ports 18000 and 18001 make a safe configuration wherever the listeners are bound; unbounded are exactly the connects to port 18001 of a gateway's pod |
| `Resets.Run` | gateway/pkg/manager/connections.go:73-180 | resets sent, sockets destroyed and packets handled, for every trace, timeout and send failure: unless a send fails, `count` resets for each packet with all three layers and without SYN, FIN and RST from the first on that goes between the ends of the connection; sockets are destroyed only after both directions matched |
| `Resets.PassedOver` | gateway/pkg/manager/connections.go:97-145 | a packet without one of the three layers, or with SYN, FIN or RST set, changes neither flag and draws no reset |
| `Resets.ShowsDirection` | gateway/pkg/manager/connections.go:97-137 | any other sets a flag exactly when its addresses and ports are the tuple's, one way or the other, the tuple's ports cut to 16 bits |
| `Resets.DrawsResets` | gateway/pkg/manager/connections.go:123-145 | and once a flag is set it draws exactly `count` resets, from its receiver to its sender, with the numbers ack + i * window |
| `Resets.OwedIsCounted` | gateway/pkg/manager/connections.go:97-145 | over any trace there are `count` resets for each packet answered, and no others |
| `Resets.SendResets` | gateway/pkg/manager/connections.go:139-145 | the inner loop's wrapping 32-bit arithmetic yields the numbers ack + i * window modulo 2^32 |
| `Resets.OwedAfter` | gateway/pkg/manager/connections.go:123-145 | a packet is answered exactly when it is eligible and one of the connection has been seen by then |
| `Resets.OtherConnectionsToo` | gateway/pkg/manager/connections.go:138 | a packet of another connection draws resets exactly when it is eligible and the watched one has been seen |
| `Resets.FlushBudget` | gateway/pkg/manager/connections.go:97-145 | no reset before the first match; from it on, count for every eligible packet |
| `Resets.ResetTravelsBack` | gateway/pkg/manager/connections.go:140-141 | a reset has the addresses of a packet from the receiver back to the sender |
| `Resets.ResetsTileWindows` | gateway/pkg/manager/connections.go:138-145 | a receive window at offset x holds one of the numbers exactly when x is at most (count - 1) windows or it wraps round, and never two (section 3.4 of RFC 9293) |
| `Resets.RequestsFollowDump` | gateway/pkg/manager/connections.go:151-162 | the requests are for exactly the dumped sockets off the loopback addresses, one for each, in dump order, each with its socket's identity and family and protocol 6 |
| `Resets.LoopbackExactlyWhen` | gateway/pkg/manager/connections.go:151-155 | the loopback addresses are 127.0.0.0/8, in 4 bytes or in 16, and ::1 |
| `SocketCodec.Serialize` | gateway/pkg/manager/connections.go:237-257 | the cursor writes stay in bounds and fill exactly the 56-byte layout |
| `SocketCodec.RequestLayout` | gateway/pkg/manager/connections.go:237-257 | each of the 56 bytes of a request, by position: family, protocol, extensions, padding, states, ports, addresses, interface and cookie, in either native byte order |
| `SocketCodec.Deserialize` | gateway/pkg/manager/connections.go:279-308 | short input is an error; otherwise the cursor reads exactly 72 bytes and decodes them |
| `SocketCodec.ReplyLayout` | gateway/pkg/manager/connections.go:279-308 | which bytes of a reply each field is read from: family, state, timer, retransmissions, identity and the five counters; anything under 72 bytes yields none |
| `SocketCodec.AddressRoundTrip` | gateway/pkg/manager/connections.go:246-252 | an address survives exactly when it has the form its family requires |
| `SocketCodec.IdRoundTrip` | gateway/pkg/manager/connections.go:244-301 | reading back an identity block gives ports, interface, cookie words and addresses, in either native byte order |
| `SocketCodec.RequestInReply` | gateway/pkg/manager/connections.go:237-301 | a request's identity block behind a reply's header identifies the same socket |
| `SocketCodec.TailIsIgnored` | gateway/pkg/manager/connections.go:279-307 | nothing past the 72nd byte matters |
| `Rewriter.ReplaceIsRejoin` | gateway/pkg/gateway/openai.go:89 | replacing is splitting at the word and joining with the replacement |
| `Rewriter.PiecesMakeText` | gateway/pkg/gateway/openai.go:89 | joined with the word itself, the pieces are the text |
| `Rewriter.PiecesAreFree` | gateway/pkg/gateway/openai.go:89 | the word does not occur within any piece |
| `Rewriter.PiecesAreLeftmost` | gateway/pkg/gateway/openai.go:89 | the first piece ends at the word's first occurrence |
| `Rewriter.ContainsExactlyWhen` | gateway/pkg/gateway/openai.go:140 | a word is contained in a text exactly when the text is that word with some text before and behind it |
| `Rewriter.OccurrencesSurvive` | gateway/pkg/gateway/openai.go:89 | a word that shares no character with the replacement occurs in the result only if it occurred before and is not the one replaced |
| `Rewriter.FirstRuleFirst` | gateway/pkg/gateway/openai.go:87-92 | the rules apply in their order: the others to what the first one leaves |
| `Rewriter.OrderExample` | gateway/pkg/gateway/openai.go:87-92 | so a rule feeds a later one, and no earlier one |
| `Rewriter.FoldRemovesWords` | gateway/pkg/gateway/openai.go:87-92 | after all rules none of their words is left |
| `Rewriter.FoldIsIdempotent` | gateway/pkg/gateway/openai.go:87-92 | applying the rules again changes nothing |
| `Rewriter.UnchangedExactlyWhen` | gateway/pkg/gateway/openai.go:89 | a rule leaves a text alone exactly when its word is absent or replaced by itself |
| `Rewriter.SingleCharactersExactly` | gateway/pkg/gateway/openai.go:87-92 | with words of one character, no word is left in any text exactly when none is left in any of the words themselves |
| `Rewriter.RemovesWordExactlyWhen` | gateway/pkg/gateway/openai.go:89 | one rule, any word and any replacement: the word is never left in a result exactly when the replacement does not contain it, does not end with a start of it, and does not fit behind a start of it |
| `Rewriter.ReplaceAtFirst` | gateway/pkg/gateway/openai.go:89 | up to the first occurrence nothing changes, and behind it replacing starts anew |
| `Rewriter.OneCharacterExactly` | gateway/pkg/gateway/openai.go:89 | for a word of one character, exactly when the replacement does not contain it |
| `Rewriter.EmptyReplacementRecreates` | gateway/pkg/gateway/openai.go:89 | an empty replacement can bring the word back |
| `Rewriter.SharedCharacterRecreates` | gateway/pkg/gateway/openai.go:89 | so can one that shares a character with the word |
| `Policy.SubstituteFollowsTrail` | gateway/pkg/gateway/openai.go:68-75 | the loop follows, from the first matching rule on, the first later rule for each replacement |
| `Policy.SubstituteIsLookupExactlyWhen` | gateway/pkg/gateway/openai.go:68-75 | for a given model it is a lookup of the first matching rule exactly when that rule's trail ends with the replacement it began with |
| `Policy.SubstituteIsLookupForAll` | gateway/pkg/gateway/openai.go:68-75 | and for all models alike exactly when this holds of every rule that is the first for its word |
| `Policy.SubstituteIsLookup` | gateway/pkg/gateway/openai.go:68-75 | in particular when no replacement is a later rule's word |
| `Policy.ChainedSubstitution` | gateway/pkg/gateway/openai.go:68-75 | a rule list with a chain that is no lookup, and one with a chain that still is |
| `Policy.SubstituteIsIdempotent` | gateway/pkg/gateway/openai.go:68-75 | substituting twice changes nothing when no replacement is another rule's word |
| `Policy.OpenAIRequest` | gateway/pkg/gateway/openai.go:17-127 | the body is read in any case; after a parse error, or a refusal because the policy blocks, nothing is left of it; otherwise it is replaced by a rewriting: the model is the last replacement on the trail of the first matching rule, the string of each user message is what the replacements in order make of it, nothing else changes; and the length is that of the new body |
| `Policy.RewritingIsUnique` | gateway/pkg/gateway/openai.go:68-125 | there is just one rewriting |
| `Policy.RewrittenChat` | gateway/pkg/gateway/openai.go:68-125 | in a rewriting only the model and user strings change, with separated rules no configured word is left, and the policy has nothing more to do |
| `Policy.RequestPump` | gateway/pkg/gateway/http_gateway.go:18-60 | each request read is forwarded, refused or dropped: those that pass are forwarded one for one and in order of arrival, each as a rewriting of its own; those that parse under a blocking policy are refused; those that do not parse are dropped |
| `Policy.OneRequest` | gateway/pkg/gateway/http_gateway.go:18-60 | for a single request of each kind, what is forwarded and how many replies there are |
| `Policy.PumpIsDetermined` | gateway/pkg/gateway/http_gateway.go:18-60 | this determines what is sent, in which order, and how many replies there are |
| `Policy.BlockedForwardsNothing` | gateway/pkg/gateway/http_gateway.go:40-51 | while the policy blocks, nothing reaches the destination; and if all requests parse, all are answered |
| `Policy.OpenAIResponse` | gateway/pkg/gateway/openai.go:129-150 | a body that does not parse leaves the response alone; otherwise it blocks exactly when some choice contains some banned word; an unblocked body stays as it is, a blocked one gets the one choice "kube-gateway says no"; and the new body's length is declared (section 8.6 of RFC 9110) |
| `Policy.BlocksExactlyWhen` | gateway/pkg/gateway/openai.go:136-142 | a response is blocked exactly when the content of some choice is some banned word with some text before and behind it |
| `Policy.FilterIsExact` | gateway/pkg/gateway/openai.go:136-145 | a response without banned words passes unchanged, and one with them keeps everything but its choices; the output is free of banned words exactly when nothing was blocked or the refusal is free of them; filtering again changes nothing |

## Left out

- Kernel internals: how a process id is found in its namespace, program loading and attachment, tracing. Process ids and cookies are inputs; hash maps are finite maps that refuse new keys when full.
- TLS and kTLS variants of the relay, the tunnel and override choices of the endpoint, accept loops, and the direct-connect mode of the AI gateway, apart from its request pump.
- Goroutines as such: `Relay` is a state machine over the gateways' atomic steps, so the order of steps is free, and in `Gateways` the rest of the system acts between the statements of one side; buffers shared in place between goroutines are not modelled.
- RelayTheorems.RelayRefinesDirect: about bytes; a direct connection also passes on the end of a stream, and the relay does not (`RelayHazards.EndsAreNeverPassedOn`).
- Chains.BoundedExactlyWhen: about gateways that copy, with IPv4 addresses to bind to; the AI gateway's direct connects, tunnel and override endpoints, and listeners of other programs are not part of it.
- Redirection.FindTarget: takes the kernel to have no original destination of its own for the socket, as without connection tracking.
- Relay.StepKeepsInv: the near gateway hangs up only after its pumps have started; a crash of a gateway during the handshake, bytes that a TCP reset discards, and read errors other than a hang-up are not modelled.
- Preamble.ParsePrint: net.Dial is modelled for numeric IPv4 hosts and decimal ports; host names and named or signed ports, which no prefix of a printed destination contains, are not.
- Rewriter.FoldRemovesWords: one direction only, for lists of several rules, where a later rule can bring back an earlier one's word by way of any text; `Rewriter.RemovesWordExactlyWhen` is exact for one rule, `Rewriter.SingleCharactersExactly` for lists with words of one character.
- Policy.RequestPump: requests arrive one at a time (the reader is made anew for each, so pipelined bytes would be lost), the policy does not change while a request is handled, and writes succeed.
- Policy.OpenAIResponse: the response pump around it, and JSON and HTTP encoding, are not modelled beyond the length of what is encoded.
- Resets.Run: packet capture, packet construction and checksums, reading the clock, the closing call that kills one more socket, and negative counts.
- SocketCodec.Deserialize: IPv6 addresses share memory with the input buffer in the source; the model copies them.
- The Kubernetes watcher, certificates, flags and environment, debug output, `svc_mask` (computed and never used), IPv6 interception, and big-endian hosts for the hooks.
