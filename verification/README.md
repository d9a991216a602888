# trojan-rust: a verified model of its protocol core

This project models the parts of trojan-rust that decide what happens to bytes,
addresses and connections, and proves what they promise:

- **Address blocks** (`Bits`, `Cidrs`, `RangeToCidrs`, `IpSets`): cutting an address
  range into CIDR blocks and complementing a list of blocks. The cut is exact, sorted,
  at most 62 blocks long and never longer than any other list with the same addresses;
  the exact condition under which 32-bit arithmetic does not overflow, and the exact
  condition under which the complement is one, are stated and proved.
- **Framing** (`Proto`, `ProtoBytes`): the Trojan request and the UDP frame, parsing and
  generating as inverses of each other, for all inputs, and both byte by byte.
- **Incremental decoders** (`Frames`, `WireStreams`, `FrameStreams`, `ProxyUdp`,
  `UdpBackends`, `TunUdpReceive`): three stateful decoders (carry-over buffer, carry-over
  with a blocking sink, compaction in place) refine one abstract decoder, however the
  stream is cut.
- **Relays** (`Buffers`, `Streams`, `TcpSend`, `Backends`, `TunTcp`, `ServerConnection`):
  bytes in equal bytes out plus bytes buffered, through handshake, DNS wait, partial
  writes, blocking and half-close; for the server from the payload of the request to what
  the target's socket took.
- **Life cycle** (`Status`): two endpoints with five states each, coupled after every
  event, over all sequences of events.
- **Indexes** (`Domains`, `DomainNames`, `DnsCaches`, `DnsServers`, `TunUdpServer`): a
  trie on the heap against the set of domains it holds and the names it matches, a DNS
  cache that answers every query once, two maps and a reference count that stay in step.

## How the program is modelled

Sockets and TLS sessions are objects that follow an arbitrary script of outcomes
(`Reader`, `Writer`, `SendStep`), so a theorem about a method holds for every script.
Ghost fields record histories: the bytes read and written, the outcomes the sockets
gave, the datagrams sent, the streams closed. A method's contract relates these
histories to the state it leaves; `Valid()` is the invariant every method keeps, so it
holds over every run.

An index out of bounds or an arithmetic overflow, which stops the program, is an outcome
of its own (`Panic`, `None`, `panicked`, `crashed`), never a precondition. Parsers are
passed around as function values, so that the decoder theorems hold for any parser whose
verdict on a complete frame does not depend on what follows it; the program's parser is
shown to be one.

Where the code and the expectation differ, the code is kept and the exact condition is
proved:

- `range_to_cidr` leaves 32 bits for a range of two or more addresses that starts at 0
  or ends at 2^32 - 1 (`RangeToCidrs.InRange`).
- `!IPSet` is the complement exactly when, at every gap between one block and the next,
  no earlier block reaches into the gap (`IpSets.GapsClear` of the sorted blocks,
  `IpSets.Leaks` of the blocks in any order). A short block nested in a
  longer one can break this; `IpSets.NestedBlockLeaks` is a concrete case.
- A UDP frame with an IPv6 address that has arrived up to a length of 11 to 18 bytes is
  called malformed although it is only incomplete (`FrameStreams.CutAddress`). For each
  decoder and any generated stream, it is stated that this happens exactly if a read ends
  there (for the decoder with a blocking sink: exactly if it ends there and all complete
  frames have been sent); IPv4 streams have no such cut.
- The two UDP indexes agree exactly as long as no connection is created under the token
  of a live one (`TunUdpServer.UdpServer.OnDatagram`).
- One trailing dot of a domain does not matter exactly if it is the only one
  (`Domains.TrailingDot`).
- The request sent to the remote in src/wintun/tcp.rs may be written in part only; what
  precedes the relayed bytes is therefore a prefix of it (`TunTcp.Connection.Inv`).

## Model

| member | source | states |
|---|---|---|
| Bits.TrailingOnesBlock | src/wintun/ipset.rs:174-176 | the trailing ones of the right edge give the largest aligned block that ends there |
| Bits.TrailingZerosBlock | src/wintun/ipset.rs:185-188 | the trailing zeros of the left edge give the largest aligned block that starts there |
| Bits.AlignedIsDivisible | src/wintun/ipset.rs:49-51 | the bit-wise notion of alignment is divisibility by the block size |
| Cidrs.New | src/wintun/ipset.rs:41-51 | a block is made exactly for prefixes 1 to 32, is aligned to its size, contains the address given and starts at it if that is aligned |
| Cidrs.Sort | src/wintun/ipset.rs:76-83 | the order of blocks: by address, shorter blocks first, with the same blocks kept |
| Cidrs.OrderOfRanges | src/wintun/ipset.rs:76-83 | the order in terms of the ranges: by first address, and of blocks with the same first address the one that ends first |
| Cidrs.Laminar | src/wintun/ipset.rs:41-51 | two blocks that share an address are nested, the longer prefix inside |
| Cidrs.MaximalIsMinimal | src/wintun/ipset.rs:166-192 | disjoint blocks none of which can be enlarged inside a range are no more than the blocks of any list covering that range exactly |
| RangeToCidrs.HighStep | src/wintun/ipset.rs:173-183 | the block cut off the right edge is maximal, and the alignment of the edge strictly grows |
| RangeToCidrs.LowStep | src/wintun/ipset.rs:184-189 | the block cut off the left edge fits, is maximal, and its size strictly grows |
| RangeToCidrs.CutHigh | src/wintun/ipset.rs:173-183 | the first loop succeeds exactly for ranges in bounds, with at most 31 maximal blocks tiling what it cut off |
| RangeToCidrs.CutLow | src/wintun/ipset.rs:184-189 | the second loop tiles the rest with at most 31 maximal blocks |
| RangeToCidrs.OneOrder | src/wintun/ipset.rs:190-190 | sorting leaves one possible result |
| RangeToCidrs.RangeToCidr | src/wintun/ipset.rs:166-192 | no overflow exactly for empty and one-address ranges and those within [1, 2^32 - 2]; then an exact cover by disjoint, ascending, maximal blocks, at most 62 and no more than in any other exact cover |
| IpSets.ComplementIffGapsClear | src/wintun/ipset.rs:143-164 | the gaps that `!set` adds are exactly the uncovered addresses from 1 to the last right end if and only if no earlier block reaches into a gap |
| IpSets.ComplementIffNoLeak | src/wintun/ipset.rs:143-164 | the same for the blocks in the order they were added, up to their largest end: it is the complement if and only if no block reaches over the end of the last block before a gap |
| IpSets.SameStartsDoNotLeak | src/wintun/ipset.rs:150-160 | blocks that meet only blocks with the same first address do not leak |
| IpSets.ReservedCovers | src/wintun/ipset.rs:95-104 | which addresses the nine added blocks hold, by their first octets |
| IpSets.InverseComplementIffGapsClear | src/wintun/ipset.rs:95-106 | with blocks at 0 and 2^32 - 1 present, the same for all 2^32 addresses |
| IpSets.InverseMode | src/wintun/ipset.rs:86-109 | `!set` of a file read in inverse mode holds exactly the addresses neither reserved nor in a block of the file, if and only if no block leaks |
| IpSets.NestedBlockLeaks | src/wintun/ipset.rs:150-160 | a concrete nested input for which an address of the set is in its complement |
| IpSets.IPSet.Add | src/wintun/ipset.rs:115-117 | appends the block, or stops for a prefix outside 1 to 32 |
| IpSets.IPSet.AddRange | src/wintun/ipset.rs:126-129 | appends a disjoint, maximal exact cover of the range |
| IpSets.IPSet.WithFile | src/wintun/ipset.rs:86-109 | the sorted blocks of all lines, with the reserved ones in inverse mode; fails exactly if a prefix is outside 1 to 32 |
| IpSets.IPSet.Not | src/wintun/ipset.rs:143-164 | the result is sorted, disjoint and denotes exactly the gaps of the sorted input; it is the complement of the blocks as added up to their largest end exactly if none leaks |
| Streams.SendAll | src/utils.rs:37-65 | written plus buffered plus lost is what there was; blocked or broken exactly as the last write says; only a broken sink loses bytes |
| Streams.ReadOnce | src/utils.rs:67-91 | appends exactly what the read returns; the outcome is that of the read |
| Streams.CopyStream | src/utils.rs:22-35 | old buffer and bytes read equal bytes written and new buffer, in order; each of the four results exactly for the outcome it stands for, with an empty buffer unless the sink blocks |
| Proto.AddressRoundTrip | src/proto.rs:122-181 | parsing a generated address followed by anything gives the address back, IPv6 without flow information and scope |
| Proto.AddressInverse | src/proto.rs:361-376 | a parsed IPv4 or IPv6 address occupies exactly the bytes generated for it |
| Proto.RequestRoundTrip | src/proto.rs:41-108 | parsing a generated request followed by anything gives command, address and the rest, for the two known commands only |
| Proto.RequestInverse | src/proto.rs:41-108 | a parsed request with a binary address is exactly a generated one and its payload |
| Proto.DomainRequestInverse | src/proto.rs:137-152 | a parsed request with a domain is exactly its length, text, port and payload in the wire form |
| ProtoBytes.NamedRequest | src/proto.rs:41-98 | every request with a name of up to 255 bytes, byte by byte, gives command, the address the name stands for (a domain, or the IP address of its text) and the rest, for the two commands only |
| ProtoBytes.NamedRequestInverse | src/proto.rs:137-152 | and only those do |
| ProtoBytes.Ipv4Request | src/proto.rs:41-108 | a request with an IPv4 address, byte by byte, generated and parsed |
| ProtoBytes.Ipv6Address | src/proto.rs:361-376 | the nineteen bytes of an IPv6 address |
| Proto.RequestPanics | src/proto.rs:58-88 | exactly which first chunks make the parser index out of bounds |
| Proto.UdpRoundTrip | src/proto.rs:259-297 | parsing a generated frame followed by anything gives the datagram back exactly if its length is at most 1450 |
| Proto.UdpInverse | src/proto.rs:341-346 | a parsed frame is exactly a generated header and its payload |
| Proto.PacketExtends | src/proto.rs:271-288 | bytes behind a complete frame do not change its parse |
| ProtoBytes.FrameHeader | src/proto.rs:341-346 | the bytes of a generated header |
| ProtoBytes.Ipv4Frame | src/proto.rs:259-297 | the verdict on every buffer that starts like an IPv4 frame, byte by byte |
| ProtoBytes.Ipv6Frame | src/proto.rs:259-297 | the same for IPv6 |
| ProtoBytes.NamedFrame | src/proto.rs:259-297 | the same for a name, which has to be the text of an IP address |
| ProtoBytes.UnknownFrame | src/proto.rs:176-179 | any other type is malformed from eleven bytes on |
| Proto.GenerateAddress | src/proto.rs:361-376 | appends the encoding of the address |
| Proto.GenerateRequest | src/proto.rs:100-108 | appends the encoding of the request |
| Proto.GenerateUdp | src/proto.rs:341-346 | appends the encoding of the header |
| Frames.DecodeSound | src/proxy/udp_server.rs:314-333 | the abstract decoder splits a stream into frames and a rest that is no complete frame |
| Frames.DecodeThrough | src/proxy/udp_server.rs:314-333 | decoding a stream is decoding any leading frames and then what follows |
| Frames.DecodesToExtends | src/proxy/udp_server.rs:266-274 | bytes that arrive later only extend what is left over |
| Frames.ChunkingInvariance | src/proxy/udp_server.rs:266-274 | carrying over between chunks decodes what the whole stream decodes to |
| WireStreams.DecodePrefix | src/proto.rs:259-297 | any prefix of a generated stream decodes to its complete frames and the incomplete rest, and is accepted exactly if it does not end in a bad cut |
| WireStreams.ChunkedStream | src/proxy/udp_server.rs:266-274 | the same for every cutting into chunks, accepted exactly if no chunk ends in a bad cut |
| WireStreams.SentPrefix | src/server/udp_backend.rs:52-109 | frames taken from the front of a generated stream are its first datagrams |
| WireStreams.StoppedAt | src/server/udp_backend.rs:97-101 | a decoder stopped anywhere looks at a malformed frame exactly if it took all complete frames and the bytes so far end in a bad cut |
| WireStreams.NextArrival | src/proxy/udp_server.rs:266-274 | one more chunk hands on the frames complete by then, and fails exactly if it ends in a bad cut |
| FrameStreams.FramePrefix | src/proto.rs:259-297 | an incomplete frame is waited for, except with 11 to 18 bytes of an IPv6 frame |
| FrameStreams.UdpWireSound | src/proto.rs:259-297 | the frames of the program are a wire format in the sense of the stream theorems |
| FrameStreams.Ipv4Stream | src/proxy/udp_server.rs:266-274 | IPv4 frames in any chunks never fail, give the complete frames and leave the incomplete one |
| ProxyUdp.Connection.DoSendClient | src/proxy/udp_server.rs:314-333 | hands on exactly the decoding of the buffer and keeps its rest, or shuts down exactly if that is malformed |
| ProxyUdp.Connection.TrySendClient | src/proxy/udp_server.rs:266-274 | datagrams handed on and bytes carried over are the decoding of all reads together |
| ProxyUdp.Connection.TrySendClients | src/proxy/udp_server.rs:266-333 | for any prefix of a generated stream in any cuts: shuts down exactly if a read ends in a bad cut; the frames complete by then are handed on, the incomplete one is carried over |
| UdpBackends.UdpBackend.SendTo | src/server/udp_backend.rs:56-60 | a datagram counts as sent exactly if the socket was given it and took it in full |
| UdpBackends.UdpBackend.DoSend | src/server/udp_backend.rs:52-109 | frames the socket took and bytes kept are the input; every call of the socket but the last took its datagram, each datagram was given once until then, and the last call is the reason for stopping |
| UdpBackends.UdpBackend.Dispatch | src/server/udp_backend.rs:113-121 | datagrams sent followed by the decoding of the buffer are the decoding of everything dispatched, whatever blocks; a malformed frame always stops it |
| UdpBackends.UdpBackend.FinishSend | src/server/udp_backend.rs:183-188 | true exactly if no complete frame is left, and then everything decodable was sent |
| UdpBackends.UdpBackend.DispatchAll | src/server/udp_backend.rs:52-121 | over any prefix of a generated stream, any chunks and any outcomes: no loss, no duplicate, in order; malformed exactly if all complete frames are sent and the bytes so far end in a bad cut |
| TunUdpReceive.Connection.Compact | src/wintun/udp.rs:231-236 | moving the rest to the front of the storage keeps exactly the bytes behind the offset |
| TunUdpReceive.Connection.WriteFrames | src/wintun/udp.rs:240-245 | writes the payload of every complete frame and stops at the first byte behind them |
| TunUdpReceive.Connection.WriteLocal | src/wintun/udp.rs:241-242 | the local socket is given the payload |
| TunUdpReceive.Connection.Drain | src/wintun/udp.rs:223-252 | takes every complete frame and leaves the undecoded end in place, or closes the remote if that is malformed |
| TunUdpReceive.Connection.RemoteToLocal | src/wintun/udp.rs:201-254 | payloads written and buffer are the decoding of all bytes read; ends exactly when reading blocks or fails or a frame is malformed, and closes the remote exactly in the latter two |
| TunUdpReceive.Connection.ReadsGenerated | src/wintun/udp.rs:201-254 | reading any prefix of a generated stream: malformed exactly at a bad cut; the frames complete by then are written, the incomplete one is in the buffer |
| TunUdpReceive.ReadsIpv4 | src/wintun/udp.rs:201-254 | IPv4 frames are never malformed, however they are read |
| TcpSend.TcpSend | src/tcp_util.rs:38-77 | a prefix is written and the rest goes behind the buffer, which happens only on a block; fails exactly if the socket does |
| TcpSend.TcpBackend.Dispatch | src/server/tcp_backend.rs:48-57 | accepted plus buffered is everything dispatched, in order, until the socket fails; shuts down exactly then |
| TcpSend.TcpBackend.FinishSend | src/server/tcp_backend.rs:94-96 | true exactly if the socket has taken everything dispatched, unless it failed |
| Backends.Backend.Dispatch | src/server/connection.rs:285-291 | either backend is handed the bytes, and sends what it can before it keeps any |
| Backends.Backend.ValidDelivers | src/server/tcp_backend.rs:48-57 | what was handed over is what the socket took and what is buffered, in order |
| TcpSend.ProxyConnection.TrySendClient | src/proxy/tcp_server.rs:281-299 | the same for the client of the proxy, holding everything back while it is connecting, and reading on from the server exactly when all is gone and a read was put off; shuts down exactly if the socket fails |
| TcpSend.ProxyConnection.TryReadServer | src/proxy/tcp_server.rs:307-311 | what is read from the server is handed to the client, in order |
| TcpSend.ProxyConnection.ClientWritable | src/proxy/tcp_server.rs:225-228 | conservation through the event that ends connecting, and the read that was put off |
| TcpSend.ProxyConnection.ServerReadable | src/proxy/tcp_server.rs:231-241 | nothing is read while the client cannot take it; it is noted instead |
| TunTcp.LogClosing | src/wintun/tcp.rs:92-115 | one more closing keeps "each side at most once" and "a side closed for the other one's sake has nothing unsent" |
| TunTcp.Connection.CloseStream | src/wintun/tcp.rs:92-115 | a side is closed at most once, and only for a reason that holds |
| TunTcp.Connection.LocalToRemote | src/wintun/tcp.rs:166-192 | conservation towards the remote; it ends when a stream blocks or fails, and a side is closed exactly for the reason given |
| TunTcp.Connection.RemoteToLocal | src/wintun/tcp.rs:235-259 | conservation towards the local socket, which is closed also when the remote is and nothing waits |
| TunTcp.Connection.SendRequest | src/wintun/tcp.rs:209-220 | what the remote takes of the request comes first; a refusal closes both sides |
| TunTcp.Connection.CheckHalfClose | src/wintun/tcp.rs:276-291 | closes a side exactly if the other is closed and nothing waits for it; afterwards a side closed alone has bytes pending for the other |
| TunTcp.Connection.DoLocal | src/wintun/tcp.rs:117-135 | every local event keeps conservation and relays as far as the streams go; each side is closed exactly if one of its own streams fails (or it is inactive, or its flush fails) or the other side is closed and nothing waits for it |
| TunTcp.Connection.DoRemote | src/wintun/tcp.rs:194-233 | the same for every remote event, with the request as the only thing before the relayed bytes |
| Status.Endpoint.ShutDown | src/status.rs:51-63 | closes once, and nothing once shut down |
| Status.Endpoint.CheckStatus | src/status.rs:66-84 | the loop ends, and in each of the five states what is called and what becomes of it; a peer-closed side that has not finished sending stays as it is |
| Status.HandlersKeep | src/server/connection.rs:85-151 | whatever the handlers of an event do, no status goes back and no peer-closed side lacks its reason |
| Status.OneOfThree | src/status.rs:17-36 | at any time exactly one of connecting, alive and shut down |
| Status.HandlersFirst | src/proxy/tcp_server.rs:209-252 | what the handlers of an event leave of the first side |
| Status.HandlersSecond | src/proxy/tcp_server.rs:209-252 | and of the second |
| Status.HandlersAttach | src/server/connection.rs:297-327 | the second side is there exactly once it was attached, and starts established |
| Status.FirstFinishesSending | src/status.rs:70-74 | over any run, a peer-closed side stays so until it is shut down, destroyed or has finished sending |
| Status.SecondFinishesSending | src/status.rs:70-74 | the mirror |
| Status.PartnerGoesOn | src/server/connection.rs:152-163 | when one side is shut down, the other, if it has something left, goes on sending |
| Status.LiveStays | src/server/connection.rs:152-163 | two live sides stay live when no handler shuts one down |
| Status.EveryRun | src/server/connection.rs:152-163 | over all event sequences statuses never go back, peer-closed implies the partner is shut down, and a shut-down side leaves its partner at peer-closed or later |
| Status.OneMoreEventFinishes | src/proxy/tcp_server.rs:253-260 | once one side is shut down and both have nothing left to send, one more event deregisters both |
| Status.DestroyEnds | src/proxy/tcp_server.rs:172-177 | `destroy` leaves both deregistered, whatever their states |
| Status.Connection.OnReady | src/proxy/tcp_server.rs:209-261 | the objects do what one step of the run says; close and deregister are called once each, in this order |
| Status.Connection.OnDestroy | src/server/connection.rs:64-71 | the same for `destroy` |
| ServerConnection.Connection.TryHandshake | src/server/connection.rs:204-251 | command, address and payload are those of the request, or CONNECT, the default address and the whole chunk; a name is taken from the cache or looked up |
| ServerConnection.Connection.Dispatch | src/server/connection.rs:253-295 | the handshake takes place once, and afterwards payload and later chunks are forwarded or held back in order |
| ServerConnection.Connection.Forward | src/server/connection.rs:267-294 | bytes handed to the backend followed by those held back are the payload and all later chunks; only a missing DNS answer that was asked for holds a live connection back |
| ServerConnection.Connection.Meaning | src/server/connection.rs:204-251 | by what the first chunk was: no request goes, whole, to the default address; of a request only the payload is passed on, to its address, to the one its name was resolved to, or over UDP; what a live connection waits for |
| ServerConnection.Connection.TrySetupTcpTarget | src/server/connection.rs:297-327 | the backend gets what was held back first; each failure shuts the proxy down |
| ServerConnection.Connection.TryResolve | src/server/connection.rs:166-192 | the answer to a waiting connection sets the target or shuts down, and is without effect otherwise; the resolver is never needed |
| ServerConnection.Connection.Deliver | src/server/connection.rs:253-327 | at any time the target's socket took the payload and all later chunks in order, but for what is buffered, or up to its failure; UDP datagrams likewise; the payload being the whole first chunk if that was no request |
| ServerConnection.Connection.OnReadable | src/server/connection.rs:90-106 | it reads exactly if the backend can take more, and notes it otherwise |
| ServerConnection.Connection.OnWritable | src/server/connection.rs:133-139 | what the backend keeps is sent on, and a read put off is taken up exactly if it can take more |
| ServerConnection.Connection.OnEvent | src/server/connection.rs:85-151 | over every event: conservation, phases that never go back, no panic but that of the request parser, reading exactly while the backend can take more, and a shutdown of the proxy exactly if its read breaks, the name has no address or the setup fails |
| Domains.SplitJoin | src/dns/domain.rs:15-15 | the labels have no dot and joined give the name |
| Domains.TrailingDot | src/dns/domain.rs:16-18 | a trailing dot makes no difference exactly if there is none before it |
| DomainNames.SplitAtDot | src/dns/domain.rs:15-15 | splitting what is joined by a dot splits both parts |
| DomainNames.LabelsAre | src/dns/domain.rs:15-18 | labels are read from the right, without what a final dot leaves |
| DomainNames.AboveIsUnder | src/dns/domain.rs:19-34 | a domain is above a name exactly if the name is the domain or ends in a dot and the domain |
| DomainNames.MatchesNames | src/dns/domain.rs:37-54 | for any list: a name matches exactly if a listed domain is under it, or it is under a listed domain that has no other listed domain under it |
| DomainNames.OneDomain | src/dns/domain.rs:37-54 | with one domain: exactly the names under it and those it is under |
| DomainNames.Blocked | src/dns/server.rs:94-101 | a map filled with a list, asked for a name, answers exactly that |
| Domains.OrderIrrelevant | src/dns/domain.rs:14-35 | lists with the same members give the same set of domains |
| Domains.ExtendedAddsNothing | src/dns/domain.rs:25-27 | an added domain that another one extends no longer matches the names under it |
| Domains.LeafMatches | src/dns/domain.rs:45-47 | an entry without map on the way is an added domain that nothing extends |
| Domains.MissingMatchesNot | src/dns/domain.rs:49-51 | a missing entry on the way means no match |
| Domains.ShapeAlong | src/dns/domain.rs:19-34 | adding the prefixes of a domain keeps the shape of the trie |
| Domains.DomainMap.AddLabels | src/dns/domain.rs:19-34 | the loop adds exactly the prefixes of the domain, and maps for the proper ones |
| Domains.DomainMap.AddDomain | src/dns/domain.rs:14-35 | one more domain in the set the trie stands for |
| Domains.DomainMap.AddAll | src/dns/domain.rs:14-35 | all domains of a list |
| Domains.DomainMap.Contains | src/dns/domain.rs:37-54 | true exactly if the name is above an added domain, or under (or equal to) an added domain that no other one extends |
| DnsCaches.RepliedAll | src/dns/server.rs:259-268 | the replies to everybody waiting are one for each of them, under their own IDs |
| DnsCaches.QueryKeeps | src/dns/server.rs:156-199 | a query keeps "accepted queries are replies plus queued ones" for every key, client and ID |
| DnsCaches.AnswerKeeps | src/dns/server.rs:258-295 | an upstream answer keeps it, and a stored response leaves nobody waiting |
| DnsCaches.RoutesAdded | src/dns/server.rs:269-287 | exactly the IPv4 answers whose route could be added are added, each once |
| DnsCaches.EveryRun | src/dns/server.rs:151-316 | over all runs of queries and answers all this holds and nothing that happened is undone |
| DnsCaches.NoReplyTooMany | src/dns/server.rs:156-295 | over all runs nobody gets more replies than queries under one ID, and exactly as many once a response is stored |
| DnsCaches.AcceptedReceived | src/dns/server.rs:151-217 | over all runs, for every key, client and ID, no query is accepted that was not received, and every query received that could be forwarded is |
| DnsCaches.AllAccounted | src/dns/server.rs:151-316 | when every forward succeeds, queries received are replies plus queries waiting |
| DnsCaches.AnswerSettles | src/dns/server.rs:258-295 | after an answer for a key asked for it is stored until the time to live of its last answer is over, no other key is touched, everybody who waited was sent it, and every query for the key has its reply |
| DnsCaches.QueryReplies | src/dns/server.rs:170-184 | a stored response is the answer at once, under the query's ID, and nothing else is |
| DnsCaches.QueryForwarded | src/dns/server.rs:185-208 | a query is forwarded exactly unless a response not too old is stored, to the upstream the domain list says |
| DnsCaches.OwnPointer | src/dns/server.rs:160-169 | a pointer query for the server's own name is answered by itself, and nothing else is |
| DnsCaches.QueryKeepsStored | src/dns/server.rs:170-184 | queries leave a stored response and its expiry as they are, but for the ID |
| DnsCaches.KeysApart | src/dns/server.rs:235-239 | keys are equal exactly for equal names and types |
| DnsCaches.SameQuestion | src/dns/server.rs:170-184 | a query is only answered with a response to the same question |
| DnsCaches.AnswerRoutes | src/dns/server.rs:269-287 | which routes an answer adds, and that no other answer adds any |
| DnsCaches.EveryRunAsks | src/dns/server.rs:151-316 | over all runs nobody waits for an answer that was not asked for, at the right upstream |
| DnsCaches.SecondAnswerSilent | src/dns/server.rs:258-295 | a second upstream answer for a key replies to nobody |
| DnsCaches.ServerRunEnds | src/dns/server.rs:250-316 | the receive loop crashes exactly if a message without question comes before any failed receive, and gives up exactly at a failed one |
| DnsCaches.LocalRunEnds | src/dns/server.rs:151-217 | the receive loop gives up exactly at a failed receive |
| DnsServers.DnsServer.OnQuery | src/dns/server.rs:156-199 | does to the cache and to what is sent and asked what the step of the run says |
| DnsServers.DnsServer.AddRequest | src/dns/server.rs:353-369 | one more waiting client for the key, accepted |
| DnsServers.DnsServer.DispatchLocal | src/dns/server.rs:151-217 | the fold of the query steps over the script, keeping the balance |
| DnsServers.DnsServer.OnAnswer | src/dns/server.rs:258-295 | does what the answer step says: everybody waiting gets the message, it is stored until its time to live is over |
| DnsServers.DnsServer.AddRoutes | src/dns/server.rs:269-287 | the routes of the run, for the trusted upstream only |
| DnsServers.DnsServer.DispatchServer | src/dns/server.rs:241-316 | the fold of the answer steps over the script, keeping the balance, with its crash exactly at a message without question |
| TunUdpServer.AgreeAdd | src/wintun/udp.rs:340-365 | a new connection keeps the two indexes in step under a fresh token, and breaks them under a live one |
| TunUdpServer.AgreeRemove | src/wintun/udp.rs:400-401 | removing a connection from both keeps them in step |
| TunUdpServer.CountedAdd | src/wintun/udp.rs:341-341 | counting a new user of a socket keeps all counts exact |
| TunUdpServer.CountedRemove | src/wintun/udp.rs:399-399 | the count of a live connection's socket is positive, and counting down keeps all counts exact |
| TunUdpServer.NoUsers | src/wintun/udp.rs:289-291 | a socket with count zero is used by no connection |
| TunUdpServer.UdpServer.OnDatagram | src/wintun/udp.rs:340-371 | afterwards indexes and counts agree exactly if the sender was known or the new token is fresh |
| TunUdpServer.UdpServer.OnHandle | src/wintun/udp.rs:320-373 | all datagrams of a socket, new senders with fresh tokens: every sender is known afterwards, known ones keep their connection, and exactly the senders' connections closed by then are marked; the socket is active now, no other one's time changes |
| TunUdpServer.HandledNext | src/wintun/udp.rs:340-371 | one more datagram keeps the account of senders, closed connections and marks |
| TunUdpServer.UdpServer.OnRemote | src/wintun/udp.rs:376-393 | a connection is marked for removal exactly if it is closed |
| TunUdpServer.UdpServer.RemoveClosed | src/wintun/udp.rs:395-412 | exactly the marked connections go from both indexes, and no count underflows |
| TunUdpServer.UdpServer.CheckTimeout | src/wintun/udp.rs:284-310 | exactly the idle sockets without users are closed and forgotten, none that a connection uses |

## Left out

- Event polling, sockets, TLS sessions, smoltcp and the wintun driver: they are scripts of outcomes here.
- Configuration, command line, resolver threads, adapter and route tables, packet headers of the tun device.
- SHA-224 and the password text: `pass` is the byte string of one configured password, compared byte by byte, and UTF-8 conversion is not modelled.
- Whether the text of a domain is an IP address: a function `text` about which nothing is assumed.
- trust_dns: a DNS message is its ID, its questions and its answers; encoding and decoding are not modelled.
- Logging, except that the bytes an error message indexes at src/proto.rs:59-63 are taken to be evaluated, as they are when errors are logged.
- Builds without overflow checks: where arithmetic leaves 32 bits the model stops, as a checked build does.
- Waker registration, idle timeouts of connections, the idle pool, and how tokens and indexes are numbered; `next_token` is a value that comes with the datagram.
- Reading from the backends (`do_read`, `tcp_read`) and the direction from the client to the server in the proxy: they pass bytes to the TLS session and add no state of their own.
- The caching of partial writes at src/wintun/udp.rs:190-197: it compares with the header length and does not conserve bytes as written, so nothing is claimed about it.
- The choice of a source socket in `do_send_udp`: the datagram is handed on with its address, which socket it leaves by is not modelled.
- `parse_address_endpoint` and `generate_endpoint` convert to smoltcp types; the model uses the socket addresses of the other parser for both, and the conversion of IPv6 is not modelled.
- RangeToCidrs.RangeToCidr: one function with two loops in the program; the loops are the two methods CutHigh and CutLow here.
- IpSets.IPSet.Not: the loop over the sorted blocks and its body are methods of their own (CutInto, AddGap).
- Domains.DomainMap.AddDomain: the loop over the labels and its body are methods of their own (AddLabels, Descend, OpenEntry, AddEntry); an empty `Option` is a null map.
- TcpSend.TcpBackend.Dispatch: after a failed send, which shuts the backend down, only dispatches of no bytes are covered; the server makes no others, as the backend is not writable then.
- UdpBackends.UdpBackend.Dispatch: once shut down, only dispatches of no bytes are covered, for the same reason.
- TcpSend.ProxyConnection.TrySendClient: nothing is said about calls after a failed send, which closes the client within the same event.
- ServerConnection.Connection.OnEvent: covers reading from the proxy, the backend becoming writable and DNS answers; that the backend was shut down on its reading side comes with the event (`alive`), and the coupling of the two ends after each event is in `Status`.
- ServerConnection.Connection.Dispatch: the rounds of its loop are the methods Shake, Forward, ForwardTcp, ForwardUdp and Connect.
- ServerConnection.Connection.Deliver: not stated for a UDP socket opened after opening it failed before; the proxy is shut down then.
- Backends.Backend.Dispatch: the two implementations of the trait are one class with two cases.
- ServerConnection.Connection.Forward: after a failed setup the bytes are lost and the proxy is shut down; conservation is stated for the rest.
- TunUdpReceive.Connection.RemoteToLocal: not covered after a malformed frame, which closes the remote; the connection is removed before the next poll.
- TunUdpReceive.Connection.Drain: the rounds of its loop that find a packet are the method WriteFrames, and what ends the loop follows it.
- TunUdpServer.UdpServer.OnHandle: tokens of new senders are assumed fresh; without that the indexes part, as OnDatagram states.
- DnsServers.DnsServer.OnQuery: the packet that answers a query for the server's own pointer record is fixed; that it is sent is recorded, its content is not modelled.
- TunTcp.Connection.LocalToRemote: once a direction is broken its sink is closed, and conservation is stated for the other direction only.
- Status.Connection.OnReady: `close_conn` and `deregister` always succeed, as in all implementations.
