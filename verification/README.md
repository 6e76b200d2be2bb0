# A model of VNT

VNT is a peer-to-peer VPN client. This project models the parts of it that keep state, transform packets or run as a
protocol, and proves what they promise: that a packet comes out of the last tunnel as it went into the first and a ping
comes back answered, that route tables stay in order under any interleaving, that relaying ends, that shutdown runs
everything once, that a port scan skips nothing, that rewritten packets have sound checksums.

`dafny verify dfyconfig.toml` checks all of it.

## What stands for what

* Bytes are `bv8`, packets `seq<byte>`; the packet object `NetPacket` owns an `array<byte>` and a visible length. Each
  cipher is stated twice: as a pair of functions on sequences (`Seal...`, `Open...`), about which the laws are proved,
  and as the in-place methods of the source, proved against those functions.
* Block cipher, authenticated cipher, key stream, SHA-256, lz4 and zstd are function values under length and inverse
  laws (`Laws`, `CodecLaws`, `FingerLaws`). `Assumptions` shows that all of these laws can hold together. Random bytes
  are parameters. A cipher library that returns an error on encryption is not modelled; one that refuses on decryption is.
* Objects that the source mutates are classes: the route table, the device record, the stop manager, both ends of the
  socket hand-over, the timer thread, the port scanner, the proxies, the rate limiter, the broadcast packet. Where
  several threads share them, a state machine of their critical sections and atomic accesses stands beside the class;
  its theorems are about every interleaving, and each method of the class is one or more of its steps. What a thread does
  while it holds a lock is one step where the others need that lock to see it.
* The definitions follow the code; beside them stand statements that do not mention them - in bytes, numbers, or the list
  before and after - so that they can be read, and held against another implementation, on their own (`Formats`, and the
  members that end in `Exactly`).
* Clocks, sockets, wakers and sends are parameters: readings of a monotone clock, and whether a send, a bind or a wake
  succeeds.
* After an error the callers of the packet methods drop the packet, so their contracts leave its bytes open in that
  case, except that encryption and compression say which header flags they may have touched: the buffer that receives
  compressed packets is used again for the next one, and the flags left in it matter (`Pipeline.Clean`).

## What holds only under a condition

* AES-CBC without a fingerprint checks its size limit before it pads and again on arrival. A payload whose padded form
  is above the limit is encrypted and can never be decrypted (`Ciphers.CbcLosesItsLargestPackets`). Every other packet
  of every cipher arrives (`Pipeline.Delivered`, `EndToEnd.TunnelToTunnel`).
* An SM4 packet of 4065 to 4079 bytes, which no sender of this program produces, can be decrypted but not answered in
  place (`Ciphers.Sm4OpensWhatItCannotAnswer`); every other packet can (`Ciphers.OpenedCanBeSealedInPlace`).
* The answer to a compressed echo request lies in a second buffer and has the expanded length. It is sent and can be read
  exactly if that length is one the cipher encrypts there and, with AES-CBC, decrypts (`Echo.AnsweredExactlyWhen`); a request
  above the limit of the cipher that compresses below it is received and never answered (`Echo.LargePingUnanswered`).
* The answer to an echo request starts with what the relays of the request have left of the ttl. Over clients that know the
  way it comes back exactly if both ways together have at most five relays, so at most two each if they are equally
  long (`EndToEnd.PingComesBack`). The path length computed from such a datagram would count the relays of the request
  too; it is the number of links crossed exactly for datagrams sent with a fresh ttl (`Relay.MetricIsLinksCrossed`).
* If a listener registers after the last worker has gone and before the stop that follows, somebody who waits can stay
  parked for ever (`Stranding.LateListenerStrandsWaiter`); otherwise nobody does (`StopManager.NobodyStaysParked`). This
  can still happen exactly as long as the manager is not stopped (`Stranding.StrandingIsPossibleExactlyBeforeStop`).
* If the waker fails behind a message that is already queued, the two socket lists differ until the next hand-over
  (`SocketHandover.ListsAgreeUpToQueue`, `SocketHandover.FailingWakerSplitsLists`).
* With entries of equal network address, the first one listed wins, not the longest (`ExternalRoute.TiesGoToFirstListed`,
  `ExternalRoute.ShorterListedFirstWins`).
* A proxied packet that names another source than its tunnel header gets a transport checksum that its own header does
  not support, unless both addresses have the same word sum (`IpProxy.ProxiedNeedsItsSource`,
  `IpProxy.ForeignSourceIsRefused`).
* A list of routes that is all direct or none stays so under every add but one kind, exactly: without first_latency the
  update that makes one of several indirect routes direct (`RouteTables.OnlyPromotionsMix`,
  `RouteTables.UpdateCanMixDirectAndIndirect`).
* A broadcast leaves peers out exactly if some are served directly, some are not, and the packet that lists the former is
  longer than the server's cipher encrypts or, with AES-CBC and no fingerprint, decrypts (`Broadcast.AllServedExactlyWhen`,
  `Broadcast.ListingCanBeUnreadable`).

Where the code and its own words differ, the model follows the code: the comment above the tunnel handler asks for
1024 spare bytes behind a packet while the ciphers need at most 56; the comment in the echo branch says that the answer is as
long as what was received, which a compressed request is not; a UDP checksum that comes out as zero is stored as zero, although
RFC 768 asks for all ones in that case (`Checksum.StoredZeroExactlyWhen`, `Checksum.UdpChecksumCanBeStoredAsZero`); and the direct part of a broadcast tries nine peers where its constant says
eight, because the test is for an index above it.

## Model

| member | source | states |
|---|---|---|
| NetPackets.SameIdentityIsSameTag | vnt/src/cipher/sm4_cbc/rs_sm4_cbc.rs:65-101 | the six header comparisons of the ciphers that seal the header accept exactly the headers with the same 12-byte tag |
| NetPackets.TagIgnoresTtlAndFlags | vnt/src/cipher/finger.rs:53-64 | the tag is the same after a relay has lowered the ttl and after the encryption or extension flag is changed |
| NetPackets.NetPacket.New0 | vnt/src/protocol/mod.rs:124-136 | a packet is made exactly for lengths between the header and the buffer |
| NetPackets.NetPacket.SetDataLen | vnt/src/protocol/mod.rs:275-284 | the length changes exactly within those bounds, and otherwise stays |
| NetPackets.NetPacket.IncrTtl | vnt/src/protocol/mod.rs:245-252 | only the low nibble of byte 3 falls, by one |
| NetPackets.NetPacket.SetHead | vnt/src/protocol/mod.rs:229-261 | the fresh header over the old one: the high nibble of byte 0 survives, nothing else |
| Formats.HeaderBytes | vnt/src/protocol/mod.rs:157-192 | the header in bytes: flags in bits 7, 6 and 5 of byte 0, both protocols, source ttl and ttl as the high and low half of byte 3, source and destination octet by octet |
| Formats.FreshHeaderBytes | vnt/src/protocol/mod.rs:229-261 | the bytes of a fresh header, and that of the old byte 0 the high half survives |
| Formats.TagBytes | vnt/src/cipher/finger.rs:54-63 | the twelve bytes of the tag |
| Formats.NonceBytes | vnt/src/cipher/finger.rs:65-70 | the twelve bytes of the nonce of the ChaCha20 ciphers |
| Primitives.UnpadInvertsPad | vnt/src/cipher/aes_cbc/rs_aes_cbc.rs:49-137 | PKCS#7 padding is undone exactly, and only padded texts can be unpadded |
| Ciphers.OpenOfSealed | vnt/src/cipher/cipher.rs:220-266 | for all eight ciphers: whenever encryption succeeds, decryption gives the packet back, if and only if it is not an AES-CBC packet above the arrival limit |
| Ciphers.OpenGcmOfSealed | vnt/src/cipher/aes_gcm/aes_gcm_cipher.rs:38-112 | AES-GCM round trip with and without fingerprint, whatever the buffer holds in the place of the missing one |
| Ciphers.OpenPolyOfSealed | vnt/src/cipher/chacha20_poly1305/rs_chacha20_poly1305.rs:37-109 | ChaCha20-Poly1305 round trip; the nonce is recovered from the random word in the tail |
| Ciphers.OpenStreamOfSealed | vnt/src/cipher/chacha20/rs_chacha20.rs:32-88 | ChaCha20 round trip |
| Ciphers.OpenCbcOfSealed | vnt/src/cipher/aes_cbc/rs_aes_cbc.rs:49-137 | AES-CBC gives the payload back exactly up to the size limit and refuses it above |
| Ciphers.OpenEcbOfSealed | vnt/src/cipher/aes_ecb/rs_aes_ecb.rs:47-144 | AES-ECB, which seals the header too, round trip under its own header |
| Ciphers.OpenSm4OfSealed | vnt/src/cipher/sm4_cbc/rs_sm4_cbc.rs:41-136 | SM4, header sealed and IV in the tail, round trip up to its encryption limit |
| Ciphers.CbcLosesItsLargestPackets | vnt/src/cipher/aes_cbc/rs_aes_cbc.rs:94-137 | without fingerprint a payload of 65484 bytes encrypts in the 64 KiB buffer and is refused on arrival |
| Ciphers.OpenOfRelayedBy | vnt/src/protocol/mod.rs:245-252 | decryption commutes with any number of relays, for every datagram, honest or not |
| Ciphers.OpenedLength | vnt/src/protocol/body.rs:95-345 | whatever decrypts had exactly the length that encrypting the result has |
| Ciphers.OpenedCanBeSealedInPlace | vnt/src/handle/recv_data/client.rs:139-143 | a decrypted packet can be encrypted again in the bytes it arrived in, exactly unless it is an SM4 packet above the sender's limit |
| Ciphers.Sm4OpensWhatItCannotAnswer | vnt/src/cipher/sm4_cbc/rs_sm4_cbc.rs:63-136 | for every length from 4065 to 4079 an SM4 packet opens and cannot be encrypted again where it is |
| Ciphers.UnanswerableLengths | vnt/src/cipher/sm4_cbc/rs_sm4_cbc.rs:63-136 | a packet that opens and cannot be answered in place is an SM4 packet of one of these lengths |
| Ciphers.AnswerInPlace | vnt/src/handle/recv_data/client.rs:217-225 | an answer as long as the decrypted question fits where the question was, is as long as it was, and opens at the other end; for answers to what was then expanded see `Echo.AnsweredExactlyWhen` |
| Ciphers.SpareBytesSuffice | vnt/src/protocol/body.rs:3-9 | 60 spare bytes are enough for every cipher; 56 are needed exactly by SM4 with fingerprint on whole blocks |
| Ciphers.Sm4CapsAgree | vnt/src/cipher/sm4_cbc/rs_sm4_cbc.rs:65-136 | what SM4 agrees to encrypt is within what it agrees to decrypt |
| Ciphers.OpenedPassesCheckFinger | vnt/src/cipher/finger.rs:20-43 | for the four ciphers whose fingerprint covers the whole secret, whatever decrypts passes the key-less check |
| Ciphers.SealedPassesCheckFinger | vnt/src/cipher/finger.rs:20-43 | a sealed packet passes that check at every relay on its way |
| Formats.OpenedWasFlagged | vnt/src/cipher/cipher.rs:220-245 | a datagram opens only under the encryption flag, or only without it if there is no cipher |
| Formats.OpenedCarriesFinger | vnt/src/cipher/finger.rs:44-51 | whatever opens under a fingerprint, with any cipher, ends with the last 12 bytes of the hash of tag, ciphertext and token hash |
| Formats.OpenedByPrimitive | vnt/src/protocol/body.rs:95-345 | what comes out is what the primitive makes of the bytes behind the header: which bytes, and under which nonce or IV, for each cipher |
| Formats.LimitsExactly | vnt/src/protocol/body.rs:3-9 | the size limits of every cipher in numbers |
| Formats.SealedCarriesRandom | vnt/src/protocol/body.rs:95-345 | where each cipher puts the random bytes of a packet it seals |
| Formats.PadBytes | vnt/src/cipher/aes_cbc/rs_aes_cbc.rs:94-137 | how many bytes of padding, and which |
| Formats.CheckFingerExactly | vnt/src/cipher/finger.rs:20-43 | exactly which datagrams pass the check without a key |
| CipherMethods.EncryptGcm | vnt/src/cipher/aes_gcm/aes_gcm_cipher.rs:79-112 | in place: succeeds exactly when size and buffer allow, and leaves the sealed packet |
| CipherMethods.DecryptGcm | vnt/src/cipher/aes_gcm/aes_gcm_cipher.rs:38-77 | in place: succeeds exactly when the function opens the packet, and leaves its result |
| CipherMethods.EncryptPoly | vnt/src/cipher/chacha20_poly1305/rs_chacha20_poly1305.rs:75-109 | the same for ChaCha20-Poly1305, random word written first |
| CipherMethods.DecryptPoly | vnt/src/cipher/chacha20_poly1305/rs_chacha20_poly1305.rs:37-74 | the same for its decryption |
| CipherMethods.EncryptStream | vnt/src/cipher/chacha20/rs_chacha20.rs:60-88 | the same for ChaCha20 |
| CipherMethods.DecryptStream | vnt/src/cipher/chacha20/rs_chacha20.rs:32-59 | the same for its decryption |
| CipherMethods.EncryptCbc | vnt/src/cipher/aes_cbc/rs_aes_cbc.rs:94-137 | the same for AES-CBC, with its size test before padding and its second one only under a fingerprint |
| CipherMethods.DecryptCbc | vnt/src/cipher/aes_cbc/rs_aes_cbc.rs:49-93 | the same for its decryption |
| CipherMethods.EncryptEcb | vnt/src/cipher/aes_ecb/rs_aes_ecb.rs:112-144 | the same for AES-ECB through its 5120-byte scratch array |
| CipherMethods.DecryptEcb | vnt/src/cipher/aes_ecb/rs_aes_ecb.rs:47-111 | the same for its decryption and the comparison of the sealed header |
| CipherMethods.EncryptSm4 | vnt/src/cipher/sm4_cbc/rs_sm4_cbc.rs:103-136 | the same for SM4 |
| CipherMethods.DecryptSm4 | vnt/src/cipher/sm4_cbc/rs_sm4_cbc.rs:41-102 | the same for its decryption |
| CipherMethods.XorPayload | vnt/src/cipher/xor/xor.rs:48-74 | the loop replaces the payload by its exclusive or with the repeated key and nothing else |
| CipherMethods.EncryptIpv4 | vnt/src/cipher/cipher.rs:246-266 | any cipher: success exactly when encryptable, the bytes are the sealed packet, and on failure the header is untouched but for the flag |
| CipherMethods.DecryptIpv4 | vnt/src/cipher/cipher.rs:220-245 | any cipher: success and bytes exactly those of the opening function |
| Compression.ExtendedOfCompressed | vnt/src/compression/mod.rs:84-135 | under whatever header a compressed payload travels, the receiver gets the original payload and that header without the extension flag |
| Compression.ExtendedOfRelayedBy | vnt/src/handle/extension/mod.rs:6-24 | extension handling commutes with any number of relays, for every datagram |
| Compression.CompressInto | vnt/src/compression/mod.rs:84-121 | error, fallback or compressed packet in the second buffer, whose header changes at most in the extension flag |
| Compression.AppendTail | vnt/src/protocol/extension.rs:62-75 | four more bytes with the algorithm first, flag set; only for lack of room nothing happens |
| Compression.SplitTail | vnt/src/protocol/extension.rs:40-60 | the tail comes off and the flag is cleared exactly for a compression tail behind a whole header |
| Compression.HandleExtension | vnt/src/handle/extension/mod.rs:6-24 | the packet to go on with, or an error, as the extension function says |
| Formats.TailBytes | vnt/src/protocol/extension.rs:62-75 | the four bytes at the end of a compressed packet |
| Formats.CompressedExactlyWhen | vnt/src/compression/mod.rs:84-121 | exactly which packets travel compressed, and when compression is an error |
| Formats.ExtendedExactlyWhen | vnt/src/compression/mod.rs:122-135 | exactly which tails are taken, and what becomes of the payload |
| Pipeline.ChosenBecomesIntended | vnt/src/handle/tun_tap/tun_handler.rs:256-270 | whichever buffer was chosen, and whatever flags an earlier packet left in it, undoing encryption and compression gives the clean header and the tunnel bytes |
| Pipeline.ReceivedOfRelayedBy | vnt/src/handle/recv_data/client.rs:82-96 | decryption and extension handling together commute with any number of relays, for every datagram |
| Pipeline.SentExactlyWhen | vnt/src/handle/tun_tap/tun_handler.rs:256-280 | a datagram leaves exactly if compression does not fail and the cipher agrees to encrypt what it left, in the buffer where it lies |
| Pipeline.Delivered | vnt/src/handle/tun_tap/tun_handler.rs:256-287 | sent and relayed k < 6 times, a packet is received as it was meant with ttl lowered by k, exactly unless it is an AES-CBC datagram above the limit |
| Pipeline.TunSender.Send | vnt/src/handle/tun_tap/tun_handler.rs:256-287 | the buffers of the read loop: the datagram is the one the function gives, and stale flags in the second buffer stay harmless |
| Pipeline.TunSender.constructor | vnt/src/handle/tun_tap/platform.rs:84-89 | zeroed buffers are harmless |
| Pipeline.Receive | vnt/src/handle/recv_data/client.rs:82-96 | decryption and extension handling in place give what the receiving function gives, or an error exactly where it has none |
| EndToEnd.ChainOnlyLowersTtl | vnt/src/handle/recv_data/turn.rs:29-56 | clients that forward, with any routing tables, are fewer than the ttl, change the ttl alone, and raise the measured distance by one each |
| EndToEnd.TunnelToTunnel | vnt/src/handle/tun_tap/tun_handler.rs:256-287 | from tunnel to tunnel over any such chain: the client with the destination's address takes the datagram in as one from a client, it is the packet as meant, and the measured path is exactly the links crossed |
| EndToEnd.ForwardedExactlyWhen | vnt/src/handle/recv_data/turn.rs:29-56 | along clients whose routes are no longer than the way really is, a datagram gets through exactly if there are fewer of them than its ttl |
| EndToEnd.PingComesBack | vnt/src/handle/recv_data/client.rs:124-144 | a ping over h relays is answered with ttl 6 - h; over clients that know the way the answer comes back exactly if h and the relays back are at most 5 together, over an equally long way exactly for h <= 2; it is received as the sender itself would have answered, ttl lowered by all relays, exactly unless it is too long; its apparent path length counts the relays of both ways |
| Echo.AnswerIsEchoReply | vnt/src/handle/recv_data/client.rs:125-140 | the answer has the addresses of both headers exchanged, is a valid echo reply with valid checksums, differs in nothing else, the spent ttl included, and is not answered in turn |
| Echo.EchoAnswerExactly | vnt/src/handle/recv_data/client.rs:123-140 | in bytes, exactly which packets are answered, which give an error and which a panic |
| Echo.EchoOfRelayedBy | vnt/src/handle/recv_data/client.rs:125-140 | answering commutes with any number of relays, for every packet |
| Echo.AnsweredExactlyWhen | vnt/src/handle/recv_data/client.rs:82-143 | an echo request that was received is answered, and the answer received as meant, exactly if its length allows: where it arrived all but SM4's over-long packets, in the second buffer what encrypts there and is within AES-CBC's arrival limit |
| Echo.CompressedEchoUnanswered | vnt/src/handle/recv_data/client.rs:139-143 | whenever a request beyond the limit of any cipher gets through compressed, no answer is sent |
| Echo.LargePingUnanswered | vnt/src/cipher/sm4_cbc/rs_sm4_cbc.rs:103-136 | under every SM4 key an echo request with 4100 bytes of data that is sent, received and not answered |
| Echo.TurnEcho | vnt/src/handle/recv_data/client.rs:123-140 | the setters in place give exactly that answer, an error or a panic; nothing changes in a packet that is no request or too short |
| Echo.AnswerEcho | vnt/src/handle/recv_data/client.rs:75-144 | from the datagram to the encrypted answer, in whichever of the two buffers it lies |
| Sorting.SortByIsStableSort | vnt/src/channel/context.rs:508-518 | the sort orders by any comparison, keeps every element, and keeps equal ones in order |
| RouteTables.ScanRejects | vnt/src/channel/context.rs:490-497 | an add is rejected exactly when a shorter route stands before the route's own key, and never with first_latency |
| RouteTables.AddedKeepsOk | vnt/src/channel/context.rs:467-521 | an add keeps keys unique, the list sorted but for its last element, and p2p tables direct |
| RouteTables.RemovedKeepsOk | vnt/src/channel/context.rs:625-633 | so does a removal, which takes out that key alone |
| RouteTables.TouchedKeepsOk | vnt/src/channel/context.rs:635-644 | so does an update of the read time |
| RouteTables.TouchRenewsThatRoute | vnt/src/channel/context.rs:635-644 | in every table reached, a time update gives the route under that key the new time and changes nothing else |
| RouteTables.EveryRunKeepsInv | vnt/src/channel/context.rs:437-521 | over every interleaving of adds, removals and time updates: unique keys, no empty list, only the newest route out of order, and only direct routes in p2p mode |
| RouteTables.SelectedIsFastestButNewest | vnt/src/channel/context.rs:437-443 | with first_latency the selected route has the least latency of all but the newest |
| RouteTables.SelectedIsMeasured | vnt/src/channel/context.rs:444-457 | without it a route is selected exactly when some route has been measured, and then a measured one |
| RouteTables.SelectionTakesTurns | vnt/src/channel/context.rs:444-457 | calls take turns over the measured routes; a turn that falls on an unmeasured one goes to the first that is measured |
| RouteTables.FirstDirectIs | vnt/src/channel/context.rs:559-568 | the direct route found is the first of length one |
| RouteTables.RejectedExactlyWhenShorterFirst | vnt/src/channel/context.rs:490-494 | when an add returns false, and that it then leaves the table as it was |
| RouteTables.NewRouteIsShortest | vnt/src/channel/context.rs:509-519 | without first_latency a new route is no longer than any there, and a new direct one leaves only direct ones |
| RouteTables.NewRouteComesLast | vnt/src/channel/context.rs:508-519 | a route with a new key that is no longer than those there is accepted, and comes last behind a sorted list |
| RouteTables.MetricsNeverRise | vnt/src/channel/context.rs:467-521 | over any run of adds neither a key's metric nor the peer's least metric rises, even if the key is dropped and comes back |
| RouteTables.StaysUniformExactlyUnlessMixed | vnt/src/channel/context.rs:490-519 | in every configuration, a list that is all direct or none stays so exactly unless the add changes the kind of one of several, or inserts the other kind without dropping |
| RouteTables.OnlyPromotionsMix | vnt/src/channel/context.rs:490-519 | without first_latency and with paths of at least one link, exactly the update that makes one of several indirect routes direct mixes a list |
| RouteTables.RunsWithoutMixingStayUniform | vnt/src/channel/context.rs:467-521 | a run whose adds never do this, with any removals and time updates, keeps the list all direct or none |
| RouteTables.UpdateCanMixDirectAndIndirect | vnt/src/channel/context.rs:498-507 | three adds that leave a direct and an indirect route side by side |
| RouteTableClass.RouteTable.AddRoute | vnt/src/channel/context.rs:461-489 | the new table and the result of an add, with the read-locked look of add_route_if_absent |
| RouteTableClass.RouteTable.AddLocked | vnt/src/channel/context.rs:487-521 | the write-locked part: metric before key in the loop, sort before push behind it |
| RouteTableClass.RouteTable.RemoveRoute | vnt/src/channel/context.rs:625-633 | the new table after a removal, without empty lists |
| RouteTableClass.RouteTable.UpdateReadTime | vnt/src/channel/context.rs:635-644 | the new table after a time update of the first route of that key |
| RouteTableClass.RouteTable.GetRouteById | vnt/src/channel/context.rs:437-460 | with first_latency the fastest but the newest of any peer in the table; otherwise a measured route if there is one |
| RouteTableClass.RouteTable.RouteOne | vnt/src/channel/context.rs:552-558 | the first route, for exactly the peers in the table |
| RouteTableClass.RouteTable.RouteOneP2p | vnt/src/channel/context.rs:559-568 | the first direct route, if there is one |
| Relay.MetricDoesNotWrap | vnt/src/handle/recv_data/client.rs:214-214 | past the guard the 8-bit path length is source ttl - ttl + 1, between 1 and 15, for every datagram |
| Relay.ForwardedPassesNextGuard | vnt/src/handle/recv_data/turn.rs:29-56 | a forwarded datagram is the received one with ttl one lower and passes every next guard |
| Relay.HandledExactly | vnt/src/handle/recv_data/mod.rs:144-176 | for every datagram, exactly when it is dropped, taken in - by which handler - or forwarded, and over which route; own addresses given octet by octet |
| Relay.MetricIsLinksCrossed | vnt/src/handle/recv_data/mod.rs:144-147 | in any network with any, even changing, tables, with loss, duplication and arbitrary datagrams sent: past the guard fewer relays than the ttl it started with, and a computed path length of the links crossed plus the ttl spent before sending, hence the links crossed exactly for what was sent fresh |
| Relay.TotalTtlFalls | vnt/src/handle/recv_data/turn.rs:29-56 | every relay step lowers the total ttl under way by one, every drop or loss lowers it too; a datagram sent with no ttl counts one |
| Relay.NetworkFallsQuiet | vnt/src/handle/recv_data/turn.rs:29-56 | with nobody sending, as many steps as the total ttl empty the network, whatever was sent before |
| Relay.PingRecordsLinksCrossed | vnt/src/handle/recv_data/client.rs:214-219 | the route a ping inserts for its sender is as long as the path the ping came plus the ttl spent before, so as long as the path exactly if it was sent fresh |
| Relay.TurnHandle | vnt/src/handle/recv_data/turn.rs:21-57 | the relay in place: what goes out and over which route, and what the buffer holds afterwards |
| Relay.Handle | vnt/src/handle/recv_data/mod.rs:134-176 | guard, dispatch and relay of one datagram |
| Relay.FirstRouteIs | vnt/src/channel/context.rs:552-558 | the route by which a relay decides is the first of the list |
| ClientControl.AnswerGoesBack | vnt/src/handle/recv_data/client.rs:217-255 | an answer goes to the source with the payload as it came and the code and ttl of its kind, passes every guard and starts at distance one |
| ClientControl.ControlTeaches | vnt/src/handle/recv_data/client.rs:214-273 | in bytes: an accepted pong records a latency that adds up with its time to the clock, a ping or punch response a default one where the key is new, both the length of the path; every other packet and every refused route leaves the table as it is |
| ClientControl.WhatIsAnswered | vnt/src/handle/recv_data/client.rs:217-275 | exactly which control packets are answered |
| ClientControl.AnswersFit | vnt/src/handle/recv_data/client.rs:220-225 | it fits where the question was and opens at the other end, exactly unless it is an over-long SM4 packet |
| ClientControl.AddressAnswerTells | vnt/src/handle/recv_data/client.rs:274-290 | the answer to an address request always fits its buffer, opens at the one who asked, and tells the address and port it was seen to come from |
| ClientControl.Control | vnt/src/handle/recv_data/client.rs:207-293 | every control packet: the route learned, with the measured latency for a pong, and the encrypted answer |
| DeviceInfo.ExchangeChangesOwnFields | vnt/src/handle/recv_data/server.rs:323-340 | a successful exchange is the writer's change of the value the cell then had: registration keeps the server, a server change and a status change keep all else |
| DeviceInfo.EachFieldHasItsLastWriter | vnt/src/handle/mod.rs:208-240 | each field holds what the last change that owns it wrote, and before the first registration no address |
| DeviceInfo.EveryReachableInfo | vnt/src/handle/mod.rs:253-255 | in every interleaving of the writers: last writer per field, network and broadcast of address and mask or never registered, own and broadcast address in the network |
| DeviceInfo.OwnAddressesAreInNetwork | vnt/src/handle/mod.rs:253-255 | such a record never finds its own address or its broadcast address outside the network |
| DeviceInfo.NetworkExactly | vnt/src/handle/mod.rs:253-255 | an address is in the network exactly if it agrees with the own one under the mask |
| DeviceInfo.BroadcastIsHighest | vnt/src/handle/mod.rs:222-240 | the broadcast address is in the network and has every one bit of every address of it |
| DeviceInfo.FailuresAreOthersSuccesses | vnt/src/handle/recv_data/server.rs:325-340 | in every interleaving, a writer's exchanges fail no more often than those of the others succeed meanwhile, and once more if it began from a stale record |
| DeviceInfo.OnlyServerChangeIsGivenUp | vnt/src/handle/maintain/idle.rs:429-443 | a registration or status change ends only by being made; a change of server address alone can be given up |
| DeviceInfo.AtomicInfo.RegisterResponse | vnt/src/handle/recv_data/server.rs:323-340 | the loop ends with the registration made on whatever the others have left |
| DeviceInfo.AtomicInfo.ChangeStatus | vnt/src/handle/mod.rs:267-279 | so does the status loop, which returns what it stored |
| DeviceInfo.AtomicInfo.ServerAddressResolved | vnt/src/handle/maintain/idle.rs:429-440 | the new address is stored exactly if the record is still the loaded one |
| Idle.NextIdle | vnt/src/channel/idle.rs:26-44 | a timeout names a route that is overdue and comes whenever one is; a sleep comes only with none overdue, none becomes so before it ends, and it is no shorter than the oldest route asks |
| Idle.TouchedIsNotOverdue | vnt/src/channel/idle.rs:26-44 | a route whose time was just updated is overdue exactly from now + limit on |
| Idle.RemovalDeletesOne | vnt/src/handle/maintain/idle.rs:126-128 | removing a timed-out route by key deletes exactly one route and keeps all others in order |
| Idle.SilentTableEmpties | vnt/src/handle/maintain/idle.rs:117-151 | a table that receives nothing is empty after exactly as many timeouts as it has routes |
| Idle.IdleRoute | vnt/src/handle/maintain/idle.rs:117-151 | one timer call: one route less, and Connecting exactly when it was the gateway's; else nothing changes |
| StopManager.NamesAreUniqueAndLive | vnt/src/util/notify.rs:65-83 | registered names are unique, each belongs to its own live worker, and until the stop every live worker has one |
| StopManager.EachListenerRunsExactlyOnce | vnt/src/util/notify.rs:84-160 | in every interleaving a listener has run once exactly when its worker is released or the manager stopped, never twice |
| StopManager.NothingRegistersAfterStop | vnt/src/util/notify.rs:72-75 | after the stop nothing is registered, ever |
| StopManager.CallbackRunsOnceAfterAllListeners | vnt/src/util/notify.rs:120-125 | the callback runs at most once, and then every listener has run |
| StopManager.CallbackHasRunInTheEnd | vnt/src/util/notify.rs:120-160 | and it does run: in every state with all workers gone, the callback and every listener have run exactly once |
| StopManager.NobodyStaysParked | vnt/src/util/notify.rs:95-107 | if no listener comes in after the count reached zero, as when the stop came first, nobody is left parked once all workers are gone |
| StopManager.WaiterLooks | vnt/src/util/notify.rs:95-107 | a look lets a waiter go exactly at a count of zero |
| StopManager.WaiterWakes | vnt/src/util/notify.rs:102-119 | a wake-up leads to another look, a timeout away |
| Stranding.StrandingIsPossibleExactlyBeforeStop | vnt/src/util/notify.rs:65-107 | from any reachable state without a late listener, some continuation ends with all workers gone and somebody parked exactly if the manager is not stopped |
| Stranding.LateListenerStrandsWaiter | vnt/src/util/notify.rs:151-158 | a run in which a late listener leaves a woken waiter parked although all workers are gone |
| StopManagerClass.Manager.AddListener | vnt/src/util/notify.rs:65-83 | accepted exactly with a name that is new and not empty before the stop |
| StopManagerClass.Manager.StopAll | vnt/src/util/notify.rs:84-91 | every listener that is left runs; afterwards all have run exactly once |
| StopManagerClass.Manager.Release | vnt/src/util/notify.rs:138-160 | dropping a worker: its listener has run, one count less, and with the last one all listeners, wake-ups and the one callback |
| SocketHandover.ListsAgreeUpToQueue | vnt/src/channel/context.rs:148-225 | in every interleaving, outside the lock: the queue applied to the listener's list is the context's list, exactly unless the waker failed for the last queued message |
| SocketHandover.NoMessageIsForgotten | vnt/src/channel/sender.rs:207-215 | a queued message with nobody in mid-send and an idle listener has its flag set and its wake-up pending |
| SocketHandover.AtRestListsAreEqual | vnt/src/channel/udp_channel.rs:75-118 | at rest the queue is empty and both lists are equal element for element |
| SocketHandover.OneTurnSettles | vnt/src/channel/udp_channel.rs:83-118 | one undisturbed turn of the listener brings both lists together |
| SocketHandover.RequestSettles | vnt/src/channel/context.rs:148-225 | what a request does when nothing fails: nothing if the list has the form asked for, else new list, queued message, flag and wake-up |
| SocketHandover.RefusedMessageChangesNothing | vnt/src/channel/sender.rs:207-215 | a full queue refuses a message and the list stays |
| SocketHandover.QueueIsBounded | vnt/src/channel/sender.rs:207-215 | in every interleaving the queue holds no more than it has room for |
| SocketHandover.StopEndsListener | vnt/src/channel/udp_channel.rs:79-82 | after the stop flag the listener leaves at its next look |
| SocketHandover.FailingWakerSplitsLists | vnt/src/channel/notify.rs:122-125 | a run in which a failing waker leaves them apart |
| SocketHandoverClass.Handover.Switch | vnt/src/channel/context.rs:148-185 | exactly when it succeeds; the list takes the form asked for or stays, and agreement is lost only with an error behind a queued message |
| SocketHandoverClass.Handover.ResetReconnect | vnt/src/channel/context.rs:186-225 | the same for the reconnect |
| SocketHandoverClass.Handover.OnNotify | vnt/src/channel/udp_channel.rs:79-118 | the listener's loop empties the queue and ends with the last message's sockets, or ends with the stop flag or a refused registration |
| Scheduler.StartsAreDueAndLeast | vnt/src/util/scheduler.rs:112-146 | in every interleaving no task starts before its deadline or while an earlier one is in the heap |
| Scheduler.NothingIsLostOrDoubled | vnt/src/util/scheduler.rs:77-105 | every accepted task is started, in the heap or in the channel, and counted once |
| Scheduler.NothingStartsAfterReturn | vnt/src/util/scheduler.rs:116-119 | once the loop has observed the shutdown or a stop message nothing starts |
| Scheduler.AtMostOneStartAfterShutdown | vnt/src/util/scheduler.rs:106-111 | from the moment the flag is set at most one more task starts |
| Scheduler.DueTaskStarts | vnt/src/util/scheduler.rs:120-138 | with the least task in hand and the clock at its deadline the loop starts that task next, before it waits |
| Scheduler.EveryTaskCanStart | vnt/src/util/scheduler.rs:112-166 | from every state reached without shutdown or stop message the thread alone can go on until every task of the heap has been started |
| Scheduler.OffersAreAccepted | vnt/src/util/scheduler.rs:77-111 | until the flag is set an offered task has the deadline asked for; it is accepted unless the channel is full; shutting down sets the flag and sends a stop message |
| Scheduler.ReceivedIsObeyed | vnt/src/util/scheduler.rs:168-176 | a stop message ends the loop, a task goes into the heap |
| SchedulerClass.TimerThread.Peek | vnt/src/util/scheduler.rs:25-34 | the top of the reversed heap is a task with the least deadline |
| SchedulerClass.TimerThread.Look | vnt/src/util/scheduler.rs:115-140 | one turn of the inner loop: exactly when it ends the loop, starts the least task, or takes a message |
| SchedulerClass.TimerThread.RunDue | vnt/src/util/scheduler.rs:115-145 | the inner loop starts a least task of the heap if one is due at its first look, one at each look if others are quiet and all are due, and nothing under a set flag; conservation and due, least starts are kept |
| SchedulerClass.TimerThread.RunLoop | vnt/src/util/scheduler.rs:112-166 | so does the whole loop, tasks that schedule tasks included; with others quiet, all tasks due and a look for each, everything accepted has been started at the end |
| Punch.PunchSymmetric | vnt/src/channel/punch.rs:487-507 | the loop sends exactly the probes the budget pays for, or those before a send that fails, and returns the number of ports that were completed |
| Punch.ProbesInOrder | vnt/src/channel/punch.rs:487-507 | how many probes a round sends, and to which address and port each of them goes |
| Punch.RoundAdvances | vnt/src/channel/punch.rs:487-507 | with fewer addresses than budget a round completes min(slice, (budget-1)/addresses) ports, at least one |
| Punch.EveryPortIsTried | vnt/src/channel/punch.rs:443-458 | between two visits to cursor 0 every port from 1 to 65535 is sent to all addresses of the round that completes it, with budgets, addresses and failures changing freely |
| Punch.CursorReturns | vnt/src/channel/punch.rs:455-458 | successful rounds come back to cursor 0 within as many rounds as there are ports |
| Punch.Puncher.SymmetricRound | vnt/src/channel/punch.rs:443-458 | one call: what is sent, all of it or up to the send that fails, the next cursor of this peer, no other peer touched, and after a failed send the cursor stays |
| Checksum.FoldIsCongruent | vnt/packet/src/lib.rs:81-83 | folding keeps the sum modulo 65535 and is zero only for zero |
| Checksum.StoredChecksumValidates | vnt/packet/src/ip/ipv4/packet.rs:91-95 | zero the field, compute, store: recomputing gives zero, for any length, odd ones included |
| Checksum.StoredPseudoChecksumValidates | vnt/packet/src/tcp/tcp.rs:98-102 | the same with the pseudo header |
| Checksum.ComplementIsZero | vnt/packet/src/ip/ipv4/packet.rs:185-187 | recomputing gives zero exactly for word sums that are positive multiples of 65535 |
| Checksum.WordSumIsByteSum | vnt/packet/src/lib.rs:71-80 | the word sum is 256 times the bytes at even places plus those at odd places |
| Checksum.OddIsPadded | vnt/packet/src/lib.rs:78-80 | bytes of odd number have the checksum of themselves with a zero behind |
| Checksum.PseudoHeaderIsInFront | vnt/packet/src/lib.rs:99-127 | the checksum with pseudo header is that of the bytes with the twelve bytes of the RFCs in front |
| Checksum.StoredZeroExactlyWhen | vnt/packet/src/udp/udp.rs:132-136 | the stored field is zero exactly when what is summed is a positive multiple of 65535 |
| Checksum.UdpChecksumCanBeStoredAsZero | vnt/packet/src/udp/udp.rs:132-136 | a UDP segment for which it is |
| Checksum.AddWords | vnt/packet/src/lib.rs:74-80 | the loop computes the word sum and no 32-bit addition overflows |
| Checksum.FoldCarries | vnt/packet/src/lib.rs:81-83 | the folding loop ends with the folded sum |
| Checksum.CalChecksum | vnt/packet/src/lib.rs:71-85 | the checksum of up to 65535 bytes, and when it is zero |
| Checksum.Ipv4CalChecksum | vnt/packet/src/lib.rs:99-127 | the checksum with pseudo header of up to 65535 bytes |
| Ipv4.UpdateChecksum | vnt/packet/src/ip/ipv4/packet.rs:91-95 | in place, inside a larger buffer: field zeroed, computed and stored, nothing outside changed |
| Ipv4.AcceptedExactlyWhen | vnt/packet/src/ip/ipv4/packet.rs:38-51 | which packets the parser accepts, in numbers |
| IpProxy.ProxiedIsSound | vnt/src/ip_proxy/tcp_proxy.rs:38-58 | for a packet from the tunnel source both checksums are right afterwards and only destination address, port and checksums differ |
| IpProxy.ProxiedNeedsItsSource | vnt/src/ip_proxy/udp_proxy.rs:43-63 | for any other packet they are right exactly if both source addresses have the same word sum modulo 65535 |
| IpProxy.ForeignSourceDoesNotCheck | vnt/src/ip_proxy/udp_proxy.rs:43-63 | every packet from 10.0.0.1 that comes in a tunnel packet from 10.0.0.2 is turned into one that does not check |
| IpProxy.ForeignSourceIsRefused | vnt/packet/src/udp/udp.rs:97-99 | one such UDP packet of 28 bytes, and the validity test refuses the result |
| IpProxy.RestoredIsSound | vnt/src/ip_proxy/tcp_proxy.rs:60-76 | a reply gets the target's address and port as its source, both checksums right, nothing else changed |
| IpProxy.SoundIsValid | vnt/packet/src/udp/udp.rs:97-99 | such packets are accepted by the validity tests of header and segment |
| IpProxy.ValidExactly | vnt/packet/src/udp/udp.rs:97-99 | exactly which checksums the validity tests accept: a zero field, or a sum that is a positive multiple of 65535 |
| IpProxy.SegmentExactly | vnt/packet/src/tcp/tcp.rs:61-77 | exactly which segments the parsers accept, and where the checksum lies |
| IpProxy.Proxy.RecvHandle | vnt/src/ip_proxy/udp_proxy.rs:43-63 | in place, for every packet the parser accepts: the rewritten packet and the client's target remembered; an error that changes nothing for a short segment; a panic for a header without room for the address |
| IpProxy.Proxy.SendHandle | vnt/src/ip_proxy/udp_proxy.rs:65-81 | in place: a reply to a client comes from exactly the address and port it last aimed at, with sound checksums; others stay; a panic for a header without room for the address |
| IpProxy.Proxy.Forget | vnt/src/ip_proxy/udp_proxy.rs:186-187 | when a UDP relay ends, its client's target is forgotten and no other |
| ExternalRoute.ToIp | common/src/args_parse.rs:69-82 | the text of a number up to 32 gives the mask of as many leading ones, set bit by bit; any other text is refused |
| ExternalRoute.ParseOfDigits | common/src/args_parse.rs:69-72 | the decimal digits of a number are read back as that number up to 32 bits |
| ExternalRoute.ParseRefuses | common/src/args_parse.rs:69-82 | and any text with something else in it is refused |
| ExternalRoute.MatchesExactly | vnt/src/external_route/mod.rs:18-29 | an address matches a prefix exactly if it agrees with it on the whole prefix |
| ExternalRoute.NoneExactlyWhenNothingMatches | vnt/src/external_route/mod.rs:18-29 | no route is found exactly when nothing given matches |
| ExternalRoute.FirstMatchHasLongestNetwork | vnt/src/external_route/mod.rs:11-29 | the first match lies in the network of every longest match |
| ExternalRoute.DistinctNetworksGiveLongest | vnt/src/external_route/mod.rs:11-29 | with distinct network addresses it is the longest match |
| ExternalRoute.TiesGoToFirstListed | vnt/src/external_route/mod.rs:11-17 | otherwise it is the first listed of that network that matches, hence longest exactly if that one is |
| ExternalRoute.ShorterListedFirstWins | vnt/src/external_route/mod.rs:11-29 | a shorter prefix listed first hides a longer one with the same address |
| ExternalRoute.ExternalRoutes.Route | vnt/src/external_route/mod.rs:18-29 | the search returns the first match's gateway, or none exactly when nothing given matches |
| ExternalRoute.Allow | vnt/src/external_route/mod.rs:54-65 | allowed exactly when an entry matches |
| RateLimiter.AtMostFromStart | vnt/src/util/limit/rate_limiter.rs:31-61 | at most capacity + rate * floor(T) grants in the first T seconds, for every pattern of calls, where of the rate only what the capacity can hold counts |
| RateLimiter.AtMostInWindow | vnt/src/util/limit/rate_limiter.rs:41-61 | at most capacity + rate * ceil(T), hence capacity + rate * (floor(T) + 1), in any window of T seconds, with the same smaller rate |
| RateLimiter.OnlyEffectiveRateShows | vnt/src/util/limit/rate_limiter.rs:52-61 | a bucket that refills faster than its capacity grants exactly the calls of one that refills at its capacity |
| RateLimiter.BoundsAreReached | vnt/src/util/limit/rate_limiter.rs:31-61 | for every capacity, rate and T, calls that reach the bound with that smaller rate from the start, and calls that reach it in a window |
| RateLimiter.RefusedOnlyWhenSpent | vnt/src/util/limit/rate_limiter.rs:41-61 | for every pattern of calls, nobody is refused before the whole capacity has been granted |
| RateLimiter.RefillAdds | vnt/src/util/limit/rate_limiter.rs:52-61 | a refill adds what the whole seconds bring, up to the capacity, takes nothing away, and moves its time only if it added something |
| RateLimiter.Limiter.TryAcquire | vnt/src/util/limit/rate_limiter.rs:41-49 | the object's fields and answer after any history of calls |
| Broadcast.EncodedDecodes | vnt/src/protocol/ip_turn_packet.rs:63-118 | count, every address and the inner packet are read back as they were written |
| Broadcast.EncodedBytes | vnt/src/protocol/ip_turn_packet.rs:44-118 | the bytes of a broadcast packet |
| Broadcast.BroadcastPacket.Addresses | vnt/src/protocol/ip_turn_packet.rs:63-78 | the loop reads the address at each place the count announces, and panics exactly if they do not all fit |
| Broadcast.BroadcastPacket.Data | vnt/src/protocol/ip_turn_packet.rs:79-86 | what follows the addresses, or an error exactly if they do not fit |
| Broadcast.BroadcastPacket.SetAddress | vnt/src/protocol/ip_turn_packet.rs:90-106 | count and addresses are written, or nothing if they do not fit |
| Broadcast.BroadcastPacket.SetData | vnt/src/protocol/ip_turn_packet.rs:107-118 | the data are written exactly if they fill the rest |
| Broadcast.EverybodyIsServedOnce | vnt/src/handle/tun_tap/tun_handler.rs:84-150 | online, each peer of the audience is sent to directly or gets the same packet through the server by what that decodes from the wire, never both; it gets nothing exactly if others are served directly, it is not, and the listing packet is too long for the server's cipher on either side |
| Broadcast.AllServedExactlyWhen | vnt/src/handle/tun_tap/tun_handler.rs:84-150 | nobody is left out exactly if all are served directly, or none, or the listing packet is short enough to be encrypted and decrypted |
| Broadcast.ListingCanBeUnreadable | vnt/src/handle/tun_tap/tun_handler.rs:131-149 | with AES-CBC and no fingerprint a listing packet can be encrypted and sent that the server cannot decrypt |
| Broadcast.NobodyIsServedTwice | vnt/src/handle/tun_tap/tun_handler.rs:105-117 | no peer gets two direct packets |
| Broadcast.ServerReadsListAndPacket | vnt/src/handle/tun_tap/tun_handler.rs:131-149 | decrypted and decoded from the wire, the server packet gives exactly the directly served peers and the packet they got, or nothing exactly if it is too long |
| Broadcast.ServerPacketHeader | vnt/src/handle/tun_tap/tun_handler.rs:131-142 | the header of the packet for the server |
| Broadcast.ServeDirectly | vnt/src/handle/tun_tap/tun_handler.rs:102-117 | the loop serves exactly those of the first nine whose first route of length one carries the packet, and says whether anybody is left |
| Broadcast.Broadcast | vnt/src/handle/tun_tap/tun_handler.rs:84-150 | the whole function has the outcome the theorems speak of, and offline nothing goes to the server |
| Assumptions.CipherLawsCanBeMet | vnt/src/cipher/cipher.rs:220-266 | the laws asked of the cryptographic primitives do not contradict each other |
| Assumptions.CodecLawsCanBeMet | vnt/src/compression/mod.rs:84-135 | nor do those asked of the compressors |

## Left out

- Cryptographic primitives, SHA-256, lz4 and zstd themselves, key derivation, `simple_hash`, the ring and openssl variants of the ciphers, RSA and the protobuf messages.
- Secrecy and authenticity: the laws are lengths and inverses only.
- Sockets, polling, DNS, STUN, TUN/TAP devices, hooks, configuration parsing, console output, and the ICMP proxy.
- The server. Where a statement needs it, it passes a broadcast on to every member that is not listed in it.
- The fingerprint check without key for the two ChaCha20 ciphers: they leave the random word out of the fingerprint, the check does not.
- Dispatch of packets in the listener of the extra UDP sockets, whose token 0 is both the notification and the first socket: list agreement is proved, not delivery.
- The predicted-port window of the port scan, and its other branches; the model starts where the cursor is read.
- What the client handler does with tunnel packets that are no echo requests, besides the allow list and the two proxies.
- Wire-guard peers, the gateway branch and the ICMP echo to oneself in the tunnel handler, and the device map that registration refills.
- Listeners that panic or call back into the stop manager while it holds its lock.
- Memory ordering below sequential consistency, and the moment inside `add_listener` between the push and the increment, in which a waiter may already read the smaller count.
- CipherMethods.EncryptIpv4: after a failure says only what the header may look like, because callers drop the packet.
- StopManager.NobodyStaysParked: says that no waiter is stuck, not that the threads are scheduled.
- Echo.TurnEcho: after a panic says nothing about the buffer.
- IpProxy.Proxy.SendHandle: after a panic says nothing about the buffer; for a header of 16 bytes by its own length field, whose destination lies in the payload, it gives the bytes but not their meaning.
- RateLimiter.Limiter.TryAcquire: does not model overflow of the machine integers that count tokens.
- SchedulerClass.TimerThread.RunLoop: lets the others act once before each look at the channel; all other interleavings are covered by the state machine.
