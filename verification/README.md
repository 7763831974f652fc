# strongSwan packet processing, verified in Dafny

This project models the parts of strongSwan, as shipped in this repository, that
process packets and protocol messages, and proves what they are for:

- **libipsec**, the user-space ESP implementation: the SA manager with its
  checkout protocol, SPI allocation and expiry; the anti-replay window; ESP
  packets and their IP payloads; the policy database; and the two processor
  jobs that tie these together into a data path.
- **libtls**: the record layer that reassembles and fragments, and the two CBC
  record ciphers.
- **libradius**: attribute hiding, signing and verifying of RADIUS messages.
- **libsimaka**: printing, parsing and verifying of EAP-SIM/AKA messages.

Cryptography is abstract (`Crypto.dfy`): a primitive is any function, and the
assumptions on it (decryption undoes encryption, a MAC has a fixed size) are
predicates that appear in the statements that need them. Objects the C code
updates in place are classes whose methods are proved against functions on
values; the theorems are about those functions. The concurrent part of the SA
manager is a step system: one step is what a thread does while it has the mutex.

`dafny verify dfyconfig.toml` is the command for the whole project.

## Main results

- **At-most-once delivery** (`DataPath.DeliveredAtMostOnce`): over every run of
  sending, losing, repeating, reordering and making up packets, under every AEAD,
  each delivered packet is one that was sent, and no packet sent is delivered twice.
- **Checkout protocol** (`SaCheckout.RunSafe`, `RemovalCompletes`): in every
  reachable state SAs are used and deleted by one thread at a time, counters are
  exact and no wake-up is lost; an entry marked for deletion goes away after a
  number of turns known in advance, and nobody uses an entry that is gone.
- **Window and network** (`EspPacket.AuthenticatedFirst`,
  `DataPath.WindowFollowsSender`): only an authentic packet moves the window, so in
  every run the window stays behind the sender and genuine packets get through.
- **Replay window** (`EspContext.ReceiveAll`, `ReplayRun`): a ring of bits with
  32-bit wrapping index arithmetic accepts exactly the unseen numbers within the
  window.
- **TLS records** (`TlsRecord.Exchange`): sending and receiving compose to the
  identity, however the stream is fragmented and cut up on the way.
- **Delivery and sending** (`IpsecProcessor.InboundExactly`, `OutboundExactly`):
  what the two jobs let through, in both directions of an if-and-only-if, in terms
  of the SAs and the policies installed.
- **Confidentiality** (`SimakaWire.SecretsInvisible`): secret attributes have no
  influence on a message outside of its encrypted part and its MAC.
- **Binding** (`RadiusWire.AnswersOneRequest`, `TlsAead.OutOfPlace`): an answer
  belongs to one request and a record to one place, or a hash or MAC collides.
- **Round trips** for ESP, IP packets, both TLS ciphers, RADIUS
  passwords and MPPE keys, and EAP-SIM/AKA messages.
- **Exact conditions** where the code does less than one might expect; see the
  end of this file.

## Model

| member | source | states |
|---|---|---|
| SaCheckout.WaitForEntryKeeps | src/libipsec/ipsec_sa_mgr.c:190-207 | Asking for an entry, first or after a wake-up, keeps the invariant whichever way it ends; which way that is, is in SaOutcome.CheckoutAnswered and WaiterAnswered |
| SaCheckout.LeaveKeeps | src/libipsec/ipsec_sa_mgr.c:656-672 | A holder that checks in, or a waiter that leaves, keeps the counters exact and hands over the wake-up, whichever sleeper the signal hits |
| SaCheckout.RemoveEntryKeeps | src/libipsec/ipsec_sa_mgr.c:165-184 | Claiming an entry for removal keeps the invariant, parked until the user is done or already draining |
| SaCheckout.DrainEntryKeeps | src/libipsec/ipsec_sa_mgr.c:165-184 | Draining waiters before destruction keeps the invariant; the entry is destroyed only when nobody is left |
| SaCheckout.FlushKeeps | src/libipsec/ipsec_sa_mgr.c:213-226 | Each step of the flush loop, which may release the mutex in the middle of the list, keeps the invariant |
| SaCheckout.AddKeeps | src/libipsec/ipsec_sa_mgr.c:520-524 | A new entry at the head of the list keeps the invariant, also while a flush is under way |
| SaCheckout.StepKeeps | src/libipsec/ipsec_sa_mgr.c:165-230 | Every step of every thread, spurious wake-ups included, keeps the whole invariant |
| SaCheckout.RunKeeps | src/libipsec/ipsec_sa_mgr.c:165-230 | Every state of every run satisfies the invariant |
| SaCheckout.RunSafe | src/libipsec/ipsec_sa_mgr.c:165-207 | In every reachable state: an entry is locked iff exactly one thread has it, the waiting counter is the number of waiters, an entry is marked iff exactly one thread is removing it, no thread is at an entry that is gone, and when threads sleep on an unlocked entry another one is already awake |
| SaCheckout.DestroyedDeserted | src/libipsec/ipsec_sa_mgr.c:291-311 | An entry disappears only in a step of the thread that removes it, when no other thread holds or awaits it |
| SaCheckout.DestroyedOnce | src/libipsec/ipsec_sa_mgr.c:291-311 | Over whole runs, a destroyed entry had only its remover left and never comes back |
| SaCheckout.ClosingStep | src/libipsec/ipsec_sa_mgr.c:165-207 | Once an entry is marked and checked in, no step of anyone raises 2 * waiting_threads + (1 if the remover is awake), and every turn of its waiters or remover lowers it or ends the entry |
| SaCheckout.ClosingTurn | src/libipsec/ipsec_sa_mgr.c:656-672 | In such a state, whenever the mutex is free some waiter or the remover can take a turn |
| SaCheckout.RemovalCompletes | src/libipsec/ipsec_sa_mgr.c:165-184 | As long as the entry exists, its waiters and remover have taken no more turns than that measure at the start |
| SaCheckout.FlushAdvances | src/libipsec/ipsec_sa_mgr.c:213-226 | A flush that has the mutex can always take its next step, and each one brings it one entry closer to the end of the list or gives up the mutex |
| SaCheckout.FlushReleases | src/libipsec/ipsec_sa_mgr.c:213-226 | While a flush keeps the mutex it takes no more steps than there are entries left, so the turns of ClosingTurn come about |
| SaCheckout.FlushLeavesNothing | src/libipsec/ipsec_sa_mgr.c:213-226 | When a flush reaches the end of the list, every entry that existed when it began is gone or is being removed by another thread |
| SaOutcome.CheckoutAnswered | src/libipsec/ipsec_sa_mgr.c:190-207 | The answer to a checkout, written out on locked, awaits_deletion and waiting_threads: sent away with one sleeper woken if the entry is being deleted; else a waiter more if somebody has it; else it is held and locked with nobody woken, or seen and left with one sleeper woken; every other thread and entry stays |
| SaOutcome.WaiterAnswered | src/libipsec/ipsec_sa_mgr.c:190-207 | A waiter that wakes up is answered the same way, no longer counted |
| SaOutcome.CheckinFrees | src/libipsec/ipsec_sa_mgr.c:656-672 | After a checkin the entry is free, its marks as before, exactly the signalled sleeper awake, everything else as it was |
| SaOutcome.RemoveRemoves | src/libipsec/ipsec_sa_mgr.c:165-184 | An entry already marked is left alone; any other is marked, and destroyed in this step iff nobody has it and nobody waits, else its remover sleeps, after waking all sleepers if nobody has it |
| SaOutcome.RemoverRemoves | src/libipsec/ipsec_sa_mgr.c:165-184 | So it goes for a remover that wakes up |
| SaOutcome.FlushStarts | src/libipsec/ipsec_sa_mgr.c:213-226 | A flush starts at the head of the list |
| SaOutcome.FlushRemoves | src/libipsec/ipsec_sa_mgr.c:213-226 | A flush passes over marked entries, removes any other at its position like a remover, and ends at the end of the list |
| SaOutcome.AddInstalls | src/libipsec/ipsec_sa_mgr.c:520-524 | A new entry is at the head, free, unmarked and without waiters, under an identity not in use |
| SaOutcome.SignalsOne | src/libipsec/ipsec_sa_mgr.c:656-672 | A signal wakes exactly one of the sleepers at the entry, and none only if there is none |
| SaOutcome.CanAct | src/libipsec/ipsec_sa_mgr.c:165-230 | With the mutex free, every idle thread can ask, remove and flush, every holder can check in, every woken thread can continue: the safety results are not about runs that cannot happen |
| SaOutcome.WaiterServed | src/libipsec/ipsec_sa_mgr.c:190-207 | With a thread waiting for a free unmarked entry, some waiter can take a turn and gets it, or has seen it if it only wanted that |
| EspContext.WrapIsHarmless | src/libipsec/esp_context.c:106-113 | Unsigned 32-bit subtraction of window offsets agrees with the integers modulo the window size |
| EspContext.SetThenGet | src/libipsec/esp_context.c:78-101 | Setting one window bit changes that bit and no other |
| EspContext.EspContext.SetWindowBit | src/libipsec/esp_context.c:78-91 | The window bit at the index is set or cleared, all others stay |
| EspContext.EspContext.GetWindowBit | src/libipsec/esp_context.c:96-101 | In a valid context: whether the number that far behind the highest was accepted |
| EspContext.EspContext.CheckWindow | src/libipsec/esp_context.c:106-113 | Inside the window: true iff the number was never accepted |
| EspContext.EspContext.VerifySeqno | src/libipsec/esp_context.c:115-145 | True iff the number is not zero, not left of the window and not accepted before |
| EspContext.EspContext.Shift | src/libipsec/esp_context.c:159-165 | The loop moves the head by the shift and clears exactly the bits it passes |
| EspContext.AdvanceRecords | src/libipsec/esp_context.c:157-168 | Moving the window and marking its head again records exactly the accepted numbers |
| EspContext.InsideRecords | src/libipsec/esp_context.c:169-173 | Marking a number inside the window records exactly the accepted numbers |
| EspContext.EspContext.SetAuthenticatedSeqno | src/libipsec/esp_context.c:147-174 | The number becomes accepted, the window moves iff it is the highest, and the ring keeps recording exactly the accepted numbers |
| EspContext.EspContext.NextSeqno | src/libipsec/esp_context.c:182-191 | Outbound numbers count up from one and run out before they repeat; inbound contexts give none |
| EspContext.ReplayRun | src/libipsec/esp_context.c:115-174 | For every sequence of received numbers, in the view of accepted numbers the ring is proved to keep: no number is accepted twice, the last number is the highest accepted, and a number verifies iff it is positive, above the highest minus the window size, and not accepted |
| EspContext.ReceiveAll | src/libipsec/esp_context.c:115-174 | The ring itself, over any list of received numbers, takes exactly the numbers and goes through exactly the states ReplayRun is about |
| IpPacket.ParseTransportHeaderV6 | src/libipsec/ip_packet.c:234-278 | The loop over extension headers ends with the header chain followed as far as it is complete, and takes the ports from there |
| IpPacket.ExtensionsSuffix | src/libipsec/ip_packet.c:234-278 | Following extension headers only drops bytes from the front |
| IpPacket.Create | src/libipsec/ip_packet.c:283-379 | Computes the parsed packet or refuses it, in every case |
| IpPacket.ParseShape | src/libipsec/ip_packet.c:283-379 | The kept packet is cut to its declared length, and the payload is a suffix of it |
| IpPacket.TrailingBytesIgnored | src/libipsec/ip_packet.c:283-379 | Any bytes after the declared length leave the result unchanged (section 2.7 of RFC 4303) |
| IpPacket.Reparse | src/libipsec/ip_packet.c:283-379 | Parsing the encoding of an accepted packet gives the same packet, except that an IPv4 packet declaring less than 20 bytes is then refused |
| IpPacket.FixTransportHeader | src/libipsec/ip_packet.c:432-489 | Rewrites ports and checksum of UDP and TCP in place, and nothing before or besides them |
| IpPacket.FixedPorts | src/libipsec/ip_packet.c:432-489 | The rewritten header has the given ports, and its own where none are given |
| IpPacket.BuildThenParse | src/libipsec/ip_packet.c:494-524 | A built IPv4 packet parses back to its addresses, ports, protocol and payload, cut to the sixteen bits of the length field if it is longer; UDP or TCP data without a complete header is refused |
| IpPacket.BuildUdp | src/libipsec/ip_packet.c:552-565 | A packet built around UDP data parses back to both hosts with their ports and the data, cut like the packet; it is refused iff the wrapped length leaves no UDP header |
| IpWire.Fields4 | src/libipsec/ip_packet.c:283-379 | An accepted IPv4 packet byte by byte: protocol 9, source 12 to 15, destination 16 to 19, cut to the length in 2 and 3, payload behind the header length in the low half of byte 0, ports from the payload of UDP and TCP unless the fragment offset is not zero |
| IpWire.Fields6 | src/libipsec/ip_packet.c:283-379 | An accepted IPv6 packet byte by byte: source 8 to 23, destination 24 to 39, cut to 40 more than the length in 4 and 5 |
| IpWire.ExtensionPassed | src/libipsec/ip_packet.c:234-278 | An extension header of any of the seven kinds is passed over by its own length, whatever is in it and behind it |
| IpWire.ExtensionsEnd | src/libipsec/ip_packet.c:234-278 | Any other protocol ends the chain |
| IpWire.Plain6 | src/libipsec/ip_packet.c:283-379 | An IPv6 packet laid out by fields is parsed to those fields, refused only for a transport header that is cut off |
| IpWire.Build6Refused | src/libipsec/ip_packet.c:525-542 | The IPv6 header that is built has version zero, so that every IPv6 packet built from data is refused |
| IpWire.Header4Bytes | src/libipsec/ip_packet.c:494-524 | The IPv4 header that is built, field by field, with the checksum over its own bytes |
| IpWire.TransportBytes | src/libipsec/ip_packet.c:432-489 | The fixed transport header: given ports or its own, a checksum over the result with zero in its place, every other byte as before |
| EspPacket.GeneratePadding | src/libipsec/esp_packet.c:271-279 | Fills the buffer with 1, 2, 3, ... |
| EspPacket.CheckPadding | src/libipsec/esp_packet.c:155-167 | True iff the padding is 1, 2, 3, ... |
| EspPacket.EspPacket.RemovePadding | src/libipsec/esp_packet.c:172-210 | Payload and next header of a plain text, or refusal with nothing set |
| EspPacket.UnpadPlaintext | src/libipsec/esp_packet.c:172-210 | Removing the padding of a padded payload leaves the payload and, of padding longer than its length byte can say, a multiple of 256 bytes |
| EspPacket.EspPacket.Encrypt | src/libipsec/esp_packet.c:281-371 | Status, packet bytes and sequence number state on every path, failures included |
| EspPacket.EspPacket.Decrypt | src/libipsec/esp_packet.c:212-266 | Status, payload and window state on every path, as Decapsulate gives them; AuthenticatedFirst says what that is on the bytes |
| EspPacket.AuthenticatedFirst | src/libipsec/esp_packet.c:212-266 | On the bytes of a packet, for every AEAD and window: the window accepts the number in bytes 4 to 7 exactly if that number verifies and the AEAD accepts the rest under the first eight bytes, and stays as it is otherwise; each failure has its status and nothing comes out |
| EspPacket.SealedText | src/libipsec/esp_packet.c:311-371 | The AEAD encrypts the payload, 1, 2, 3, ..., their number and the next header, under the eight header bytes and the IV in the packet |
| EspPacket.SealFails | src/libipsec/esp_packet.c:281-371 | Sealing fails exactly for want of an IV generator, an IV or the cipher text, each with its status |
| EspPacket.IcvAligned | src/libipsec/esp_packet.c:311-318 | The ICV lies on a 4-byte boundary for all sizes |
| EspPacket.CompatibleBlocks | src/libipsec/esp_packet.c:311-318 | For block size 1, block size 2 with an even IV, or block and IV sizes multiples of 4, the text is a whole number of blocks, and up to block size 256 the pad length fits its byte |
| EspPacket.IncompatibleWitness | src/libipsec/esp_packet.c:311-318 | For all other sizes a payload length is given that breaks block alignment |
| EspPacket.CompatibleExactly | src/libipsec/esp_packet.c:311-318 | Those sizes are exactly the ones for which every payload length stays aligned |
| EspPacket.SealedFields | src/libipsec/esp_packet.c:281-371 | A sealed packet shows its SPI and sequence number, and opens to its plain text iff block-aligned |
| EspPacket.RoundTrip | src/libipsec/esp_packet.c:212-371 | Decrypting what was encrypted under a fresh number: the exact status, window and content for every payload, block size and IV size |
| EspPacket.AlwaysClean | src/libipsec/esp_packet.c:311-318 | Every packet is clean (its padding fits the length byte, or the packet declares its own length) under block sizes up to 253, and up to 256 for compatible sizes |
| EspPacket.UncleanGrows | src/libipsec/esp_packet.c:172-210 | A packet with a complete header that is not clean never comes back unchanged: if it parses at all it has grown |
| EspPacket.UncleanWitness | src/libipsec/esp_packet.c:172-210 | Such a packet, under a block size of 512 |
| EspPacket.PacketRoundTrip | src/libipsec/esp_packet.c:212-371 | Every clean IP packet whose text is a whole number of blocks comes back with its protocol, except IPv4 declaring less than 20 bytes |
| EspPacket.NoNextHeader | src/libipsec/esp_packet.c:172-210 | A packet with next header 59 is decrypted successfully iff its payload parses, and its number is accepted either way |
| EspPacket.DummyRefused | src/libipsec/esp_packet.c:172-210 | Without any payload it is refused, after its number was accepted, for all sizes |
| IpsecPolicy.PriorityValue | src/libipsec/ipsec_policy_mgr.c:73-113 | The priority value as digits of its four criteria; it never underflows |
| IpsecPolicy.PriorityIsLexicographic | src/libipsec/ipsec_policy_mgr.c:73-113 | Comparing values is comparing class, then total prefix length, then port, then protocol; equal values are equal criteria |
| IpsecPolicy.PriorityInFigures | src/libipsec/ipsec_policy_mgr.c:73-113 | The value by base numbers of the four classes, subnet sizes, and the bits for ports and protocol |
| IpsecPolicy.LexIsNumeric | src/libipsec/ipsec_policy.c:107-134 | The order of addresses that selectors use is their order as numbers |
| IpsecPolicy.MatchesExactly | src/libipsec/ipsec_policy.c:107-134 | A policy covers a packet iff its first selector covers the source and its second the destination, in address and port, and the protocol is right |
| IpsecPolicy.MatchIsEquality | src/libipsec/ipsec_policy.c:91-102 | Policies match iff they agree in everything that makes them up, the subnet size reported for their selectors aside |
| IpsecPolicyMgr.ArrangeSorted | src/libipsec/ipsec_policy_mgr.c:140-175 | Whatever was added, the list is sorted by priority |
| IpsecPolicyMgr.FirstIsBest | src/libipsec/ipsec_policy_mgr.c:236-263 | The first match in the list is the most recently added among the matching policies of the lowest value, for every query and history |
| IpsecPolicyMgr.RemoveIsLatest | src/libipsec/ipsec_policy_mgr.c:177-217 | Deleting the first equal entry is forgetting the latest equal addition |
| IpsecPolicyMgr.LatestForgotten | src/libipsec/ipsec_policy_mgr.c:177-217 | Deleting by selectors, direction, class, reqid and mark takes exactly the latest policy so named out of the history, and nothing if there is none |
| IpsecPolicyMgr.FirstNamed | src/libipsec/ipsec_policy_mgr.c:177-217 | A deletion finds something iff a policy so named is installed |
| IpsecPolicyMgr.AnswersUsable | src/libipsec/ipsec_policy_mgr.c:236-263 | What answers a query is a policy of that direction and reqid that covers the packet, with no usable one of a lower value and no later one of the same; nothing iff none is usable |
| IpsecPolicyMgr.AddThenDelete | src/libipsec/ipsec_policy_mgr.c:140-217 | Adding and deleting with the same arguments restores the exact list |
| IpsecPolicyMgr.PolicyMgr.AddPolicy | src/libipsec/ipsec_policy_mgr.c:140-175 | The list stays the arrangement of all additions not deleted; ignored kinds change nothing |
| IpsecPolicyMgr.PolicyMgr.DelPolicy | src/libipsec/ipsec_policy_mgr.c:177-217 | Takes exactly the latest policy with those selectors, direction, class, reqid and mark out of the history, and fails iff there is none |
| IpsecPolicyMgr.PolicyMgr.FlushPolicies | src/libipsec/ipsec_policy_mgr.c:219-234 | Nothing is left |
| IpsecPolicyMgr.PolicyMgr.FindByPacket | src/libipsec/ipsec_policy_mgr.c:236-263 | After any run of operations, the best usable policy of the history for packet, direction and reqid, none iff none is usable |
| IpsecSa.IpsecSa.ExpireSa | src/libipsec/ipsec_sa.c:189-210 | Raises at most one event, keeps the events in order with each kind at most once, and a hard call always leaves the SA hard-expired |
| IpsecSa.IpsecSa.UpdateUsestats | src/libipsec/ipsec_sa.c:212-239 | The counters, flags and events after one use, with hard limits looked at before soft ones |
| IpsecSa.HardTimerDue | src/libipsec/ipsec_sa_mgr.c:348-381 | The hard timer is due exactly life after installation iff the times fit the 32-bit values of the job |
| IpsecSa.LifeInOrder | src/libipsec/ipsec_sa_mgr.c:317-381 | Over any mix of usage updates and timer runs: at most one soft and one hard event, never soft after hard, a limit reached at an update implies hard expiry, and the pending job keeps its due time |
| IpsecSa.UpdateInFigures | src/libipsec/ipsec_sa.c:212-239 | One use in figures: both counters modulo 2^64, the flags by the limits, hard ones first, and the events |
| IpsecSa.LifeCounts | src/libipsec/ipsec_sa.c:212-239 | Over any mix of uses and timer runs the counters are the uses and bytes so far modulo 2^64, and whenever these have passed a limit without wrapping the SA is expired accordingly |
| IpsecSa.TimersInTurn | src/libipsec/ipsec_sa_mgr.c:317-381 | The timers in figures: a soft event at rekey if that is before life, then a hard one at life, and no timer after that |
| IpsecSaMgr.SpiInRange | src/libipsec/ipsec_sa_mgr.c:421-472 | For all configured bounds the range is positive without overflow, and every candidate lies in the normalised bounds from 256 on |
| IpsecSaMgr.PerformUnique | src/libipsec/ipsec_sa_mgr.c:405-526 | Every operation keeps inbound SPIs distinct and out of the allocated set |
| IpsecSaMgr.RunUnique | src/libipsec/ipsec_sa_mgr.c:405-526 | Over whole runs, no two live inbound SAs share an SPI and none of their SPIs is still allocated |
| IpsecSaMgr.HandedOutOnce | src/libipsec/ipsec_sa_mgr.c:405-526 | Over every run, an SPI is handed out again only after an SA was installed under it |
| IpsecSaMgr.HandedOutUnused | src/libipsec/ipsec_sa_mgr.c:405-419 | An SPI can be handed out iff it is neither handed out already nor that of an inbound SA |
| IpsecSaMgr.InstallExactly | src/libipsec/ipsec_sa_mgr.c:474-526 | An SA comes first in the list unless one with its SPI, source and destination is there; its SPI is given up iff asked, either way |
| IpsecSaMgr.SaMgr.AllocateSpi | src/libipsec/ipsec_sa_mgr.c:405-419 | Succeeds iff no inbound SA and no allocation has the SPI, and then allocates it |
| IpsecSaMgr.SaMgr.GetSpi | src/libipsec/ipsec_sa_mgr.c:421-472 | Returns the SPI of the first draw that is not in use and allocates it; none iff all draws given are in use, and then nothing changes |
| IpsecSaMgr.DrawsExhausted | src/libipsec/ipsec_sa_mgr.c:421-472 | No random numbers whatsoever lead to an SPI iff the whole normalised range is in use: exactly then the loop in C does not end |
| IpsecSaMgr.SaMgr.AddSa | src/libipsec/ipsec_sa_mgr.c:474-526 | Installs the SA first in the list unless one with the same SPI and hosts exists; an update gives up the allocation in either case |
| IpsecSaMgr.SaMgr.DelSa | src/libipsec/ipsec_sa_mgr.c:588-620 | Removes exactly the first SA with that SPI and hosts, if any |
| IpsecSaMgr.SaMgr.UpdateSa | src/libipsec/ipsec_sa_mgr.c:528-564 | Changes only the hosts of the first SA with that SPI and hosts, and only with UDP encapsulation |
| IpsecSaMgr.SaMgr.FindBySpi | src/libipsec/ipsec_sa_mgr.c:639-654 | Finds the first SA with that SPI and destination that is not hard-expired |
| IpsecSaMgr.SaMgr.FindByReqid | src/libipsec/ipsec_sa_mgr.c:622-637 | Finds the first SA with that reqid and direction that is not hard-expired |
| IpsecProcessor.DecryptWith | src/libipsec/ipsec_processor.c:124-130 | Decrypts with one SA, touching that SA only |
| IpsecProcessor.InboundAt | src/libipsec/ipsec_processor.c:116-133 | Decryption and usage accounting of one SA, proved against a function of its value |
| IpsecProcessor.ReceiveFrom | src/libipsec/ipsec_processor.c:101-133 | The SA for a packet is found, used and put back; all others stay |
| IpsecProcessor.SendFrom | src/libipsec/ipsec_processor.c:209-234 | The SA for a reqid is found, used and put back; all others stay |
| IpsecProcessor.Processor.ProcessInbound | src/libipsec/ipsec_processor.c:91-168 | One job takes one packet off the queue and delivers p iff the first unexpired SA for the SPI in bytes 0 to 3 and the destination is inbound and decrypts the packet to p under next header 4 or 41, and an installed inbound policy with the reqid of that SA covers p; nothing else is delivered |
| IpsecProcessor.Processor.ProcessOutbound | src/libipsec/ipsec_processor.c:189-236 | One job takes one packet off the queue and sends exactly what the first unexpired outbound SA with the reqid of the best outbound policy seals it to, and nothing if there is no policy, SA, number, IV or cipher text |
| IpsecProcessor.InboundExactly | src/libipsec/ipsec_processor.c:91-168 | That delivery condition in both directions, for every SA list, policy history and packet |
| IpsecProcessor.InboundTouches | src/libipsec/ipsec_processor.c:101-133 | Only that SA is touched: its window by the decryption, its use by the length of what it let through |
| IpsecProcessor.OutboundExactly | src/libipsec/ipsec_processor.c:189-236 | That sending condition in both directions |
| DataPath.SendOne | src/libipsec/ipsec_processor.c:189-236 | What is sent carries the next sequence number and seals the packet given |
| DataPath.ReceiveOne | src/libipsec/ipsec_processor.c:91-168 | What is received was authenticated under a number not accepted before and accepted now |
| DataPath.ContentWasSent | src/libipsec/ipsec_processor.c:91-236 | What comes out of an authentic packet is what went into it, exactly so if that was clean |
| DataPath.StepKeeps | src/libipsec/ipsec_processor.c:91-236 | Sending, arrival, expiry and address changes keep the invariant of the path |
| DataPath.RunKeeps | src/libipsec/ipsec_processor.c:91-236 | Every state of every run satisfies it |
| DataPath.DeliveredAtMostOnce | src/libipsec/ipsec_processor.c:91-236 | In every state of every run, for every AEAD, the delivered packets map one-to-one into the packets sent, and each is the packet sent if that was clean |
| DataPath.DeliveredUnchanged | src/libipsec/ipsec_processor.c:91-236 | Under block sizes up to 253 every delivered packet is the packet sent |
| DataPath.WindowFollowsSender | src/libipsec/ipsec_processor.c:91-236 | In every state of every run, whatever the network makes up: every number the window has accepted is that of a packet sent, and the window is not ahead of the sender |
| DataPath.RecentVerifies | src/libipsec/ipsec_processor.c:91-168 | So each of the last 128 packets sent still verifies until it is accepted |
| DataPath.SendIsSent | src/libipsec/ipsec_processor.c:189-236 | A packet goes out as the next on the wire if its best policy leads to the SA, a number is left and it can be sealed |
| DataPath.FreshIsDelivered | src/libipsec/ipsec_processor.c:91-168 | A clean, block-aligned packet sent whose number still verifies is delivered when it arrives, if a policy admits it |
| TlsRecord.SplitFlat | src/libtls/tls.c:193-281 | Splitting serialised records gives the records back, whatever follows |
| TlsRecord.DeliveredIsSplit | src/libtls/tls.c:193-281 | What has been delivered is the split of all bytes seen, except for one empty record held back in the head buffer |
| TlsRecord.DeliveredDetermined | src/libtls/tls.c:193-281 | Without empty records, what is delivered depends on the bytes and not on how they were cut |
| TlsRecord.Receiver.CompleteHead | src/libtls/tls.c:200-215 | Completing a partial header loses and invents no byte |
| TlsRecord.Receiver.Inline | src/libtls/tls.c:221-247 | Complete records are delivered straight from the buffer, and only complete ones |
| TlsRecord.Receiver.Buffer | src/libtls/tls.c:256-278 | Filling the record buffer loses no byte and delivers the record when complete |
| TlsRecord.Receiver.Process | src/libtls/tls.c:193-281 | Delivered records and held bytes together are everything received; delivery stops at the first answer of the upper layer that is not a request for more |
| TlsRecord.Receiver.Feed | src/libtls/tls.c:193-281 | Over any number of calls no byte is lost, doubled or reordered, and feeding stops exactly at the first record after which the upper layer wants no more |
| TlsRecord.Sender.Gather | src/libtls/tls.c:293-320 | The output buffer holds the records the upper layer offered, serialised in order |
| TlsRecord.Sender.Build | src/libtls/tls.c:283-344 | Each fragment continues the message, its length is reported with the first fragment only, and the status tells the last one |
| TlsRecord.Sender.SendMessage | src/libtls/tls.c:283-344 | Fragments of the given sizes together are as much of the message as the sizes have room for, and the length of the whole message is reported with the first and only there |
| TlsRecord.Receive | src/libtls/tls.c:193-281 | A fresh receiver, fed a stream of non-empty records in any pieces, delivers the records of the stream up to the first after which the upper layer wants no more |
| TlsRecord.ReceiveTwice | src/libtls/tls.c:193-281 | Two ways to cut the same stream lead to the same records and the same status, whatever the upper layer answers |
| TlsRecord.Exchange | src/libtls/tls.c:193-344 | Build and process compose to the identity: records offered to a fresh sender, handed out in fragments of any sizes with room for them, cut up again in any way and fed to a fresh receiver, are delivered there in full with nothing held back, if its upper layer always wants more, and up to the first stop if it does not |
| TlsRecord.SumPositive | src/libtls/tls.c:283-344 | Positive fragment sizes, as many as there are bytes, have room enough |
| TlsRecord.RecordBytes | src/libtls/tls.c:300-312 | A record on the wire: type, version, length, data, in figures |
| TlsAead.UnwrapWrap | src/libtls/tls_aead_impl.c:56-150 | MAC and padding come off again and leave the data, for every block size below 256 |
| TlsAead.StripPadding | src/libtls/tls_aead_impl.c:117-128 | Padding of a possible length comes off iff all its bytes equal that length, and is refused otherwise; an impossible length leaves the text as it is, for the MAC to decide |
| TlsAead.ImplicitAead.Encrypt | src/libtls/tls_aead_impl.c:56-94 | A receiver with the IV from before the call decrypts the record to the data and ends up with the IV this side has after it; on failure the IV stays |
| TlsAead.ImplicitAead.Decrypt | src/libtls/tls_aead_impl.c:96-150 | The data or refusal, and the chained IV on every path |
| TlsAead.StaysInStep | src/libtls/tls_aead_impl.c:56-150 | From equal IVs, one record decrypts to its data and leaves equal IVs (section 6.2.3.2 of RFC 2246) |
| TlsAead.AllStayInStep | src/libtls/tls_aead_impl.c:56-150 | So does every sequence of records, with equal IVs after each |
| TlsAead.SignedBytes | src/libtls/tls_aead_impl.c:56-94 | The authenticated text byte by byte: sequence number, type, version, length, data |
| TlsAead.SignedInjective | src/libtls/tls_aead_impl.c:56-94 | No two records have it in common |
| TlsAead.ImplicitBytes | src/libtls/tls_aead_impl.c:56-94 | A record is the encryption of data, MAC over that text, and padding in figures; the next IV is its end |
| TlsAead.AcceptedHasMac | src/libtls/tls_aead_impl.c:96-150 | Data is accepted only with the MAC over it and the number, type and version the receiver expects |
| TlsAead.OutOfPlace | src/libtls/tls_aead_impl.c:56-150 | A record is accepted under another number, type or version only if one MAC fits two different texts |
| TlsAead.EncryptFails | src/libtls/tls_aead_impl.c:56-94 | Encryption fails exactly for want of a MAC, of cipher text, or of cipher text as long as an IV |
| TlsAead.EncryptExplicit | src/libtls/tls_aead_expl.c:58-99 | The record starts with its IV, and any receiver with the same keys decrypts it to the data |
| TlsAead.DecryptExplicit | src/libtls/tls_aead_expl.c:101-159 | The data, or refusal of a record too short, misaligned, badly padded or with a wrong MAC |
| TlsAead.ExplicitRoundTrip | src/libtls/tls_aead_expl.c:58-159 | Every record decrypts to its data |
| TlsAead.ExplicitBytes | src/libtls/tls_aead_expl.c:58-99 | A record is its IV and the encryption of data, MAC and padding in figures |
| RadiusCrypt.DecryptedEncrypted | src/libradius/radius_message.c:398-457 | The receiver's chain inverts the sender's, for every hash (section 2.4.2 of RFC 2548) |
| RadiusCrypt.Crypt | src/libradius/radius_message.c:398-457 | The one routine computes the encrypting chain if its buffers are the same and the decrypting chain if they differ, and refuses other lengths |
| RadiusCrypt.ChainEquations | src/libradius/radius_message.c:398-457 | Block by block: the first is hidden with the hash of secret and seed, every other with the hash of secret and the cipher block before it |
| RadiusCrypt.EncryptedSucceeds | src/libradius/radius_message.c:398-457 | Hiding never fails if the hash does not |
| RadiusCrypt.DecryptMppeKey | src/libradius/radius_socket.c:302-316 | The key inside a decrypted attribute, or nothing |
| RadiusCrypt.MppeKeyRecovered | src/libradius/radius_socket.c:302-316 | Every length-prefixed key is recovered |
| RadiusMessage.FindSkips | src/libradius/radius_message.c:246-290 | The enumerator walks over all added attributes and finds what follows them |
| RadiusMessage.RadiusMessage.Parse | src/libradius/radius_message.c:696-711 | Accepts exactly the buffers whose length field is right |
| RadiusMessage.RadiusMessage.Add | src/libradius/radius_message.c:374-396 | Appends the attribute cut to 253 bytes; the length field stays right exactly as long as it has room; the first password is set aside, padded |
| RadiusMessage.BuiltAdded | src/libradius/radius_message.c:374-396 | Messages built by adding stay encodings of their attribute list |
| RadiusMessage.RadiusMessage.Sign | src/libradius/radius_message.c:459-524 | The signed message on success, failure exactly when a primitive fails; on the bytes, an answer carries in 4 to 19 the hash of itself under the authenticator of the request (or zeros) and the secret, and a request carries the random bytes |
| RadiusMessage.TaggedAuthentic | src/libradius/radius_message.c:496-509 | The Message-Authenticator is found at the end of the message and verifies |
| RadiusMessage.RadiusMessage.Walk | src/libradius/radius_message.c:246-290 | The enumeration finds the first Message-Authenticator, or whether there is an EAP-Message; it stands still exactly on an attribute of length zero |
| RadiusMessage.RadiusMessage.Verify | src/libradius/radius_message.c:526-609 | The verdict for every message, none exactly if the enumeration comes to stand still, and on success every byte is as before; whatever is accepted and is no Access-Request has in bytes 4 to 19 the hash of itself under the authenticator of the request (or zeros) and the secret |
| RadiusMessage.SignThenVerify | src/libradius/radius_message.c:459-609 | A built message, an Access-Request signed with a random authenticator or anything else signed as an answer, verifies iff it got a Message-Authenticator or has no EAP-Message (section 3 of RFC 2865, section 3.2 of RFC 3579) |
| RadiusMessage.SignedOtherwise | src/libradius/radius_message.c:459-609 | Signed the other way round it verifies iff hash and signature agree on the text signed and the text verified, the exact texts being given |
| RadiusMessage.PasswordRecovered | src/libradius/radius_message.c:374-457 | The receiver recovers a padded password iff it fits into one attribute |
| RadiusWire.VerifiedIsBound | src/libradius/radius_message.c:526-558 | Whatever is accepted, other than an Access-Request, is bound to the request by that hash |
| RadiusWire.SignedIsBound | src/libradius/radius_message.c:459-524 | Whatever is signed as an answer is bound so |
| RadiusWire.AnswersOneRequest | src/libradius/radius_message.c:459-609 | An answer signed for one request is accepted for another only if two different texts have one hash |
| RadiusWire.SignedIsTagged | src/libradius/radius_message.c:496-524 | The Message-Authenticator is the last attribute and signs the message with zeros in its place, under the authenticator of the request for an answer and under its own for a request |
| RadiusWire.SignedAttributes | src/libradius/radius_message.c:459-524 | A signed message has the attributes it had, then the password hidden under the authenticator it is signed with, then the Message-Authenticator |
| RadiusWire.SignedSucceeds | src/libradius/radius_message.c:459-524 | Signing never fails if random source, hash and signer do not |
| RadiusWire.TagDecides | src/libradius/radius_message.c:560-600 | A message with a Message-Authenticator behind any other attributes is authentic iff that value signs the message with zeros in its place |
| RadiusWire.UntaggedDecides | src/libradius/radius_message.c:560-609 | Without one it is authentic iff it has no EAP-Message |
| RadiusWire.AttributeBytes | src/libradius/radius_message.c:374-396 | An attribute on the wire: kind, length, value |
| SimakaAttribute.DecodedExactly | src/libsimaka/simaka_message.c:664-711 | An attribute survives printing and parsing iff it is not a flag with data and not an AT_RES of 32 bytes or more, modulo 256 |
| SimakaAttribute.TakeEncoded | src/libsimaka/simaka_message.c:307-450 | The parser takes off exactly what the printer put on, for every attribute type and whatever follows |
| SimakaMessage.ParsePart | src/libsimaka/simaka_message.c:307-485 | All attributes of one part are parsed in order |
| SimakaMessage.ClearNotifications | src/libsimaka/simaka_message.c:466-477 | Attributes that may be in the clear are refused iff a notification without the P bit is followed by another notification |
| SimakaMessage.LoneNotificationPasses | src/libsimaka/simaka_message.c:466-477 | So every notification without the P bit, which belongs into the encrypted part, is let through in the clear if it is the only one |
| SimakaMessage.ParsePlain | src/libsimaka/simaka_message.c:761-771 | The padded plain text parses to the attributes in it; the padding leaves no trace |
| SimakaMessage.ReadBack | src/libsimaka/simaka_message.c:490-536 | A printed message is read the same with keys at once or with keys that come after a first parse |
| SimakaMessage.RoundTrip | src/libsimaka/simaka_message.c:307-848 | A generated message parses to its clear and then its encrypted attributes, each in order, and verifies iff its subtype carries a MAC, needs none, or is a notification with the P bit |
| SimakaMessage.SelectSplits | src/libsimaka/simaka_message.c:631-656 | The split into two parts loses and doubles nothing |
| SimakaMessage.DecodedAll | src/libsimaka/simaka_message.c:657-747 | A list of attributes comes back unchanged iff each one survives |
| SimakaMessage.VerifyAgain | src/libsimaka/simaka_message.c:591-606 | As the MAC stays zeroed, a second verification succeeds iff the MAC was all zeros |
| SimakaMessage.SimakaMessage.FromPayload | src/libsimaka/simaka_message.c:861-915 | Accepts exactly the payloads with right length, code and type |
| SimakaMessage.SimakaMessage.ParseAttributes | src/libsimaka/simaka_message.c:307-485 | The loop computes verdict and state of the attributes, for every input; what is refused in the clear is in SimakaWire.ClearSecretRefused |
| SimakaMessage.SimakaMessage.ParseMessage | src/libsimaka/simaka_message.c:519-536 | Verdict and state of one parse, first or repeated |
| SimakaMessage.SimakaMessage.WriteAttributes | src/libsimaka/simaka_message.c:631-747 | The two cursors leave the clear and the encrypted attributes encoded in order in their buffers, within bounds |
| SimakaMessage.SimakaMessage.WriteSecret | src/libsimaka/simaka_message.c:749-802 | Padding, IV and in-place encryption of the wrapped attributes |
| SimakaMessage.SimakaMessage.GenerateMessage | src/libsimaka/simaka_message.c:609-848 | The generated message, or failure exactly when the IV, encryption or the MAC fails; what it shows is in SimakaWire.MessageBytes and SecretsInvisible |
| SimakaMessage.SimakaMessage.VerifyMac | src/libsimaka/simaka_message.c:538-607 | The verdict by subtype, P bit, keys and MAC, and the MAC zeroed exactly when it was looked at |
| SimakaWire.SecretsWrapped | src/libsimaka/simaka_message.c:631-656 | The part in the clear has no attribute of type 19, 20, 21, 132 or 133 and no notification without the P bit, and every such attribute is in the encrypted part, which has no other |
| SimakaWire.ClearSecretRefused | src/libsimaka/simaka_message.c:307-460 | A chunk in the clear that starts with one of those five types is refused, whatever follows |
| SimakaWire.ClearSecretFound | src/libsimaka/simaka_message.c:307-536 | So is a message with one behind any attributes that may be in the clear |
| SimakaWire.SecretsInvisible | src/libsimaka/simaka_message.c:609-848 | Two messages from lists that agree on everything but the values of secret attributes differ at most inside of AT_ENCR_DATA and in the MAC |
| SimakaWire.MessageBytes | src/libsimaka/simaka_message.c:609-848 | The whole message in figures: clear attributes, IV, the padded secret attributes encrypted under that IV, and for challenges and re-authentication a MAC over the message with zeros in its place and the additional data |
| SimakaWire.GenerateSucceeds | src/libsimaka/simaka_message.c:609-848 | Printing never fails if the primitives do not |
| SimakaWire.AttributeBytes | src/libsimaka/simaka_message.c:657-747 | Every attribute on the wire in figures, type by type |
| SimakaWire.PaddingBytes | src/libsimaka/simaka_message.c:749-771 | The padding attribute: type 6, its length in words, zeros |
| SimakaWire.VerifyBySubtype | src/libsimaka/simaka_message.c:538-607 | Which subtypes verify without a MAC, which need a right one, and that all others are refused |
| SimakaWire.HeaderBytes | src/libsimaka/simaka_message.c:861-915 | The headers accepted, in figures |

## Left out

Things the repository does that the model does not:

- Daemons, plugins, settings, logging, key derivation and algorithm selection, and the code in other libraries.
- Spurious wake-ups are part of the safety results on the checkout protocol and excluded from the progress results, as are new callers for the entry that is going away.
- Entry and thread identities are never reused, so the comparison of SA addresses in the expiry job cannot meet a new SA at an old address.
- waiting_threads is an unbounded integer.
- The SA manager's list operations are modelled for SAs nobody else is using; waiting for an SA in use is the subject of the checkout protocol.
- SPIs are kept in host order, and the conversions between byte orders are not shown.
- The random source for SPIs is a given sequence that may run out, where the loop in C would go on drawing.
- Expiry events carry only their kind, and usage statistics are not queried.
- Callbacks of the processor are taken to be registered, so packets are not dropped for lack of one.
- The value of the Internet checksum, which is any function.
- Traffic selector arithmetic beyond ranges of addresses, protocol and ports.
- The upper TLS layers are a function of the records delivered, and a list of replies; alerts and handshakes are not modelled.
- TLS ciphers decrypting a record to the empty plain text, which no block cipher does, are refused.
- RADIUS vendor attributes.
- EAP-SIM/AKA lengths that no printer writes and on which the parser reads past its chunk or stands still give an unknown verdict; AT_IV and AT_ENCR_DATA found inside the encrypted part keep their value.
- Hosts are little-endian where the byte order shows, in the length of AT_RES.
- Message hooks.
- RadiusMessage.RadiusMessage.Sign: does not cover messages that signing would make longer than 65535 bytes, because the length field wraps and the code then works outside of the buffer that the field describes.
- SimakaMessage.SimakaMessage.GenerateMessage: does not cover attributes of a wrong length, messages larger than the two buffers, and missing keys, because the code then reads or writes outside of its data.
- IpsecSaMgr.RunUnique: covers inbound SAs installed as updates with an SPI that was allocated, as the interface prescribes; uniqueness of SPI and hosts after an address update is not claimed, because the code does not look for it.

Where the code does less than its comments or its interface suggest, the model follows the code:

- A dummy packet without payload is refused while decrypting and never reaches the processor's case for dummy packets; with a payload that parses it does (`EspPacket.NoNextHeader`, `EspPacket.DummyRefused`).
- IPv6 packets built from data are always refused, as their version field is zero (`IpWire.Build6Refused`).
- Padding longer than 255 bytes, which takes a block size over 253, is not fully removed (`EspPacket.UncleanGrows`).
- The loop for a new SPI ends only if one is free (`IpsecSaMgr.DrawsExhausted`).
- Walking over a RADIUS attribute of length zero never ends (`RadiusMessage.RadiusMessage.Walk`).
- An AT_RES of 32 bytes or more changes its length on the way (`SimakaAttribute.DecodedExactly`).
- The first unencrypted notification without the P bit is let through by the parser; only a notification after it is refused (`SimakaMessage.ClearNotifications`).
- Verifying an EAP-SIM/AKA message destroys its MAC (`SimakaMessage.VerifyAgain`).
- An empty TLS record whose header arrived in pieces is delivered with the next bytes, not when complete (`TlsRecord.DeliveredIsSplit`).
