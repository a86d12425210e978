# Verified model of sinty-nm

Dafny models of the parts of sinty-nm, a NetworkManager-compatible daemon, that hold state, parse
text or bytes, or do arithmetic; with proofs of what its clients, its peers and its own files rely
on. `dafny verify dfyconfig.toml` checks everything (Dafny 4.11).

Objects that the daemon updates in place are classes, and loops are loops: each such method is
proved against a specification function, and the lemmas are about those functions. Text is a
sequence of code points, wire data a sequence of bytes.

| file | what it models |
|---|---|
| `ActivationSpec.dfy`, `Activation.dfy` | the activation state machine, as steps on values and as the objects that take them |
| `ActivationInvariant.dfy`, `ActivationRuns.dfy`, `ActivationOutcomes.dfy` | what every step keeps, what holds over all runs, and what single steps achieve |
| `ActivationEvents.dfy` | what each event does, told from outside; how often a device is connected automatically |
| `ActivationDriver.dfy` | the objects in service, under any sequence of calls and events |
| `LockSteps.dfy`, `LockSerial.dfy`, `LockAtomic.dfy` | the same code one mutex section at a time; when its claims hold there; how the two granularities fit together |
| `Autoconnect.dfy` | the wired autoconnect latch, one mutex section at a time |
| `Checksum.dfy`, `Framing.dfy` | the Internet checksum (section 2 of RFC 1071) and IPv4/UDP framing (section 3.1 of RFC 791, RFC 768) |
| `DhcpPacket.dfy`, `DhcpRounds.dfy`, `DhcpClient.dfy` | the DHCP codec, what an exchange looks like from outside, and the client (sections 2, 3.1 and 4.4.1 of RFC 2131, section 2 of RFC 2132) |
| `Bpf.dfy` | ethernet framing and the splitting of BPF reads |
| `Legacy.dfy`, `Keyfile.dfy`, `KeyfileTrips.dfy`, `Profiles.dfy` | the profile store: old list syntax, keyfiles, trips through the disk, secrets |
| `Netlink.dfy`, `NetlinkMessages.dfy` | the two attribute encoders, the nested decoder, link messages, and what they say |
| `Dns.dfy` | the merged resolver file |
| `WpaScan.dfy`, `WpaLines.dfy`, `WpaProfiles.dfy`, `Wireless.dfy` | scan results, what their text says, saved networks, access-point objects |
| `Vpn.dfy` | the routes of a WireGuard tunnel |
| `Common.dfy`, `Sorting.dfy`, `Text.dfy` | shared types; sorting by a linear order; the library's text operations |

## Granularity

`ActivationSpec` takes each of activate, settle (the superseded check with the writes after it),
deactivate, a wifi event, a link event and a profile deletion as one step, in any order and any
number; a bring-up that is still running may write between any two of them. The code does not hold
its mutex over these steps. `LockSteps` therefore repeats the model one critical section at a time
with any number of goroutines: there a teardown still runs once and a path still never returns, but
the bijection and the claim about `primary` fail, each shown by a run. `LockSerial` says when they
hold: `primary` exactly as long as no section publishes a connection that has left the registry,
both as soon as the operations on one device do not overlap. `LockAtomic` shows that an operation
that runs its sections to the end is the step of `ActivationSpec`.

## Where the code does less than one might expect

Each is proved, with the exact condition under which the code does what it is for.

* The checksum accumulator overflows: on some buffer of every length over 131074 bytes
  (`Checksum.OverflowBeyondBound`), and a given buffer exactly under the condition of `Checksum.AgreesExactly`.
* A payload over 65507 bytes is framed with truncated lengths and does not decode (`Framing.RoundTrip`).
* A BPF read that is down to 24 or 25 bytes makes the splitter read past its slice
  (`Bpf.DrainPanicsExactly`, `Bpf.CrashesExactly`); so does an attribute run of an unaligned length
  (`Netlink.PanicsExactly`).
* A keyfile entry spelling out a string that looks like another value changes value after a rewrite
  (`KeyfileTrips.TypedTextExactly`); other entries survive under the same test (`KeyfileTrips.RewriteExactly`).
* A secret saved while an open profile of the same network exists is not found again (`WpaProfiles.SecretSurvives`),
  and the profile of the empty SSID is saved where forgetting does not look (`WpaProfiles.ForgetReports`).
* A raw SSID field that is not empty can decode to the empty SSID, which is then listed
  (`WpaScan.EmptyExactly`, `WpaScan.EmptyListedExactly`).
* The percentage of a signal beyond 62 bits comes out wrong, unless by chance (`WpaLines.PercentExactly`).
* Two networks with one handle leak an access-point object or list one twice (`Wireless.LeaksExactly`,
  `Wireless.InStepExactly`); the wpa backend never reports them.
* A lease that arrives after its connection was deactivated stays on the idle device (`ActivationOutcomes.StaleLeaseExactly`).
* `primary` can name a dead connection (`LockSerial.PrimaryExactly`).
* Search domains with inner white space are written but not read back (`Dns.BodyParses`).
* Routes with the same destination and metric as one of the tunnel's are lost after teardown (`Vpn.TearDownRestores`).

## Model

| member | source | states |
|---|---|---|
| ActivationRuns.ReachableInv | internal/nmapi/activate.go:104-301 | in every state of every run: registry and devices in bijection, each State record one of the legal lives, `primary` null or registered, a wired or tunnel device Activated only when bound to an activated connection, every registered profile stored |
| ActivationInvariant.StepInv | internal/nmapi/activate.go:16-301 | each single event, in any state with those properties, leads to a state with them |
| ActivationInvariant.InitInv | internal/nmapi/activate.go:104-301 | the daemon starts in a state with those properties |
| ActivationRuns.OneConnectionPerDevice | internal/nmapi/activate.go:104-138 | after any run two registered connections on one device are the same connection |
| ActivationRuns.StateNeverDecreases | internal/nmapi/active.go:102-108 | over any run what State showed stays the front of what it has shown since, and the whole record strictly ascends |
| ActivationRuns.NeverRevived | internal/nmapi/activate.go:141-166 | a connection that left the registry, by either way out, shows Deactivated for ever, is never primary and is bound to no device |
| ActivationRuns.SupersededSettleIsInert | internal/nmapi/activate.go:148-152 | a settle that finds its bring-up superseded changes nothing but its own bookkeeping |
| ActivationRuns.RunEvolves | internal/nmapi/activate.go:104-301 | from any state to any later one: connections keep identity, `gone` is never cleared, new registry entries and profiles are new paths |
| ActivationRuns.DeleteLeavesNone | internal/nmapi/settings.go:412-428 | after a profile is deleted no connection of it is registered, then or at any later time |
| ActivationSpec.TearOneMore | internal/nmapi/settings.go:416-425 | tearing down one more user after any set of them gives the same state as the larger set, so the map order of the loop does not matter |
| ActivationInvariant.TearAllInv | internal/nmapi/settings.go:416-425 | tearing down any set of registered connections removes exactly those and keeps the invariant |
| ActivationInvariant.ActivateInv | internal/nmapi/activate.go:104-125 | activating on a device keeps the invariant whether or not the export succeeds, the device being released first |
| ActivationInvariant.SettleInv | internal/nmapi/activate.go:148-166 | success, failure, unsupported kind and supersession all keep the invariant |
| ActivationInvariant.EffectInv | internal/nmapi/activate.go:170-253 | what a running bring-up writes, even a superseded one, keeps the invariant |
| ActivationOutcomes.ActivateReplaces | internal/nmapi/activate.go:104-138 | a successful activation puts one new activating connection on the device, deactivates the one it carried, and touches no other device or connection |
| ActivationOutcomes.SettleOutcome | internal/nmapi/activate.go:148-166 | a bring-up not superseded ends with connection and device Activated and primary, or, when it failed or the device is neither wifi, wired nor tunnel, with exactly that connection torn down |
| ActivationOutcomes.StaleLeaseExactly | internal/nmapi/activate.go:246-251 | of all events exactly one kind leaves an IP4Config on a device without a connection of its own: the lease of a bring-up, exported, while its device carries none that was brought up |
| ActivationOutcomes.CleanRun | internal/nmapi/activate.go:246-301 | over a run without that no such device ever shows an IP4Config |
| ActivationOutcomes.LateLease | internal/nmapi/activate.go:141-251 | it can happen to every wired or wifi bring-up that is deactivated before its lease arrives |
| ActivationInvariant.DeactivateInv | internal/nmapi/activate.go:257-301 | deactivating a registered connection removes it and keeps the invariant |
| ActivationInvariant.AdoptInv | internal/nmapi/autowifi.go:17-62 | adopting an association keeps the invariant, with or without a stored profile |
| ActivationInvariant.DropInv | internal/nmapi/autowifi.go:64-87 | losing an adopted association, which never sets `gone`, keeps the invariant |
| ActivationInvariant.WifiInv | internal/nmapi/activate.go:65-89 | every wifi event keeps the invariant |
| ActivationInvariant.LinkInv | internal/nmapi/activate.go:16-61 | link events keep the invariant although removal does not deactivate |
| ActivationInvariant.AutoConnectInv | internal/nmapi/autowired.go:16-54 | an automatic wired attempt keeps the invariant whichever of its steps fails |
| ActivationEvents.ActivateExactly | internal/nmapi/activate.go:104-125 | a client's activation tears down exactly what the device carried, then starts one new connection of the profile there, or only uses up a path if the export fails |
| ActivationEvents.DeactivateExactly | internal/nmapi/activate.go:257-301 | a deactivation takes that connection through Deactivating to Deactivated, frees its device of binding, access point and lease, and changes nothing else |
| ActivationEvents.DeleteExactly | internal/nmapi/settings.go:412-428 | deleting a profile does that to exactly its connections, and removes it |
| ActivationEvents.AddProfileExactly | internal/nmapi/settings.go:185-216 | a stored profile is new, and nothing else changes |
| ActivationEvents.EffectExactly | internal/nmapi/activate.go:170-253 | which device states, access point and lease paths a bring-up writes, for each kind of device |
| ActivationEvents.WifiExactly | internal/nmapi/activate.go:65-89 | for every radio event: what the device shows, when the association is adopted and under which profile, when the adopted connection is let go, and that nothing else changes |
| ActivationEvents.LinkExactly | internal/nmapi/activate.go:16-61 | a removed link is only delisted; a known wired one takes the carrier, whose loss opens the latch; a new one makes a device, managed unless it is the loopback |
| ActivationEvents.RereadExactly | internal/nmapi/autowired.go:63-83 | the carrier read again after raising a wired link counts, and leaves the latch alone |
| ActivationEvents.AutoConnectExactly | internal/nmapi/autowired.go:16-54 | an attempt connects the device if and only if it is wired, managed, free, has carrier and an open latch, a profile is stored or can be added, and the export succeeds; then one new connection of that profile is starting there and the latch is closed; a failed attempt leaves it open, an ineligible device is left as it was |
| ActivationEvents.CreditKept | internal/nmapi/autowired.go:16-54 | each event: connecting a device automatically uses up its open latch, and only a reported carrier loss opens it again |
| ActivationEvents.AutoOncePerCarrier | internal/nmapi/autowired.go:16-54 | over any run of the state machine, whatever clients do: at most one automatic connection of a device, and one for each carrier loss reported |
| ActivationEvents.LinkIsSection | internal/nmapi/device.go:315-335 | a link event and a second look at the carrier do to a wired device what the one section of the latch model does |
| ActivationEvents.AttemptIsSections | internal/nmapi/autowired.go:16-54 | an automatic attempt does what its two sections do |
| Activation.Manager.Activate | internal/nmapi/activate.go:104-125 | on the objects: takes the abstract state exactly through release, register and prepare, or only release when the export fails |
| Activation.Manager.ActiveOn | internal/nmapi/activate.go:128-138 | null exactly when the device has no registered binding, else the object under it |
| Activation.Manager.Settle | internal/nmapi/activate.go:148-166 | on the objects: the settle step, failing activations being torn down |
| Activation.Manager.BringUpEffect | internal/nmapi/activate.go:170-223 | on the objects: one bring-up write |
| Activation.Manager.ApplyLease | internal/nmapi/activate.go:246-251 | a new IP4Config path on device and connection together, or on neither |
| Activation.Manager.Deactivate | internal/nmapi/activate.go:257-301 | on the objects: the teardown step, a no-op the second time |
| Activation.Manager.AdoptWifi | internal/nmapi/autowifi.go:17-62 | on the objects: the adoption step |
| Activation.Manager.DropAdoptedWifi | internal/nmapi/autowifi.go:64-87 | on the objects: the drop step |
| Activation.Manager.OnWifiEvent | internal/nmapi/activate.go:65-89 | on the objects: the wifi event step, ignored for unknown or other devices |
| Activation.Manager.OnLinkEvent | internal/nmapi/activate.go:16-61 | on the objects: the link step |
| Activation.Manager.RemoveLink | internal/nmapi/activate.go:18-31 | the in-place filter keeps exactly the other devices, in order |
| Activation.Manager.UpdateLink | internal/nmapi/device.go:315-335 | carrier counts for ethernet only, its loss clears the latch, and an attempt starts exactly on a rising carrier |
| Activation.Manager.AutoConnectWired | internal/nmapi/autowired.go:16-54 | on the objects: the automatic attempt; a profile added for it stays even if its export fails |
| Activation.Manager.RereadCarrier | internal/nmapi/autowired.go:63-83 | on the objects: the second look at the carrier |
| Activation.Manager.DeleteProfile | internal/nmapi/settings.go:412-428 | on the objects: the users are torn down in any order and the profile goes |
| Activation.ObjectsInBijection | internal/nmapi/activate.go:104-301 | heap form of the bijection, for a manager whose abstract state has the invariant: a registered object is not gone and its device points back at it, a bound device is the device of a registered object |
| ActivationDriver.Run | internal/nmapi/activate.go:16-301 | a manager that serves any list of calls and events from its construction on: its objects are then as the state machine says, so in bijection, with `primary` null or registered |
| ActivationDriver.AfterIsReached | internal/nmapi/activate.go:16-301 | the states it passes through are those of a run of the state machine |
| LockSteps.TeardownOnce | internal/nmapi/activate.go:257-268 | one mutex section at a time, any number of goroutines: the teardown body runs at most once per connection, and no two hold it |
| LockSteps.NeverReenters | internal/nmapi/activate.go:104-138 | at the same granularity a path that left the registry never returns |
| LockSteps.TwoConnectionsOnOneDevice | internal/nmapi/activate.go:104-122 | a run of lock sections in which two clients leave two registered connections on one device |
| LockSteps.StalePrimary | internal/nmapi/activate.go:150-163 | a run of lock sections that publishes a dead connection as primary |
| LockSerial.PrimaryStep | internal/nmapi/activate.go:104-301 | from a state of a run with a good `primary`, the next section spoils it if and only if it publishes a connection that is not registered |
| LockSerial.PrimaryExactly | internal/nmapi/activate.go:104-301 | over any run, any number of goroutines: `primary` is null or registered throughout if and only if no section publishes an unregistered connection |
| LockSerial.SerialRuns | internal/nmapi/activate.go:104-301 | in every run in which no operation starts while another is in progress on its device, however those on different devices interleave: `primary` is null or registered, no device ever carries two connections, and where nothing is in progress registry and devices are in bijection |
| LockAtomic.ActivateAlone | internal/nmapi/activate.go:104-138 | activate, section by section to its end, changes the shared fields exactly as the step of the state machine |
| LockAtomic.SettleAlone | internal/nmapi/activate.go:141-166 | so does the end of a bring-up |
| LockAtomic.DeactivateAlone | internal/nmapi/activate.go:257-301 | so does a deactivation |
| LockAtomic.AdoptAlone | internal/nmapi/autowifi.go:17-62 | so does an adoption |
| LockAtomic.DropAlone | internal/nmapi/autowifi.go:64-87 | so does the loss of an adopted association |
| Autoconnect.AtMostOncePerCarrier | internal/nmapi/autowired.go:16-54 | however the d.mu sections interleave, automatic activations number at most one plus the carrier losses reported |
| Autoconnect.BudgetKept | internal/nmapi/device.go:322-334 | the account behind it: successes and running attempts never exceed losses plus the latch |
| Autoconnect.BoundIsReached | internal/nmapi/autowired.go:42-53 | the bound is reached: in each round any number of attempts fails before one binds the device, which a client and the cable then free; failures use none of it up |
| Checksum.ComputeChecksum | internal/backend/dhcp/socket.go:212-224 | the loop returns the wrapped-accumulator sum on every buffer, and RFC 1071's checksum up to 131074 bytes |
| Checksum.Sum16IsRfc1071 | internal/backend/dhcp/socket.go:212-224 | up to 131074 bytes the 32-bit accumulator does not overflow and deferred carries equal end-around carries |
| Checksum.AgreesExactly | internal/backend/dhcp/socket.go:212-224 | on every buffer: the loop agrees with RFC 1071 if and only if the units of 2 to the 32 its accumulator dropped are a multiple of 65535 and what it kept is zero only for a zero sum |
| Checksum.OverflowBeyondBound | internal/backend/dhcp/socket.go:212-224 | at every length beyond 131074 bytes there is a buffer on which the two differ, so the bound is exact |
| Checksum.FoldResidue | internal/backend/dhcp/socket.go:220-222 | the fold loop ends and takes away only multiples of 65535 |
| Checksum.StoredChecksumVerifies | internal/backend/dhcp/socket.go:212-239 | storing a checksum in its zeroed field makes the buffer sum to zero, also after replacing 0 by 0xffff |
| Framing.EncodeIPUDP | internal/backend/dhcp/socket.go:154-175 | the buffer filled in place is the laid-out packet for every payload length, length fields truncated |
| Framing.UDPChecksum | internal/backend/dhcp/socket.go:227-239 | pseudo-header checksum, never zero |
| Framing.PacketBytes | internal/backend/dhcp/socket.go:154-175 | where every field of an encoded packet is and what it holds |
| Framing.ChecksumsVerify | internal/backend/dhcp/socket.go:154-239 | both checksums of an encoded packet verify to zero and the UDP field is not zero |
| Framing.DecodesExactly | internal/backend/dhcp/socket.go:179-209 | the decoder returns p exactly for the packets that carry p: any header options, slack and padding, ports 67 to 68 |
| Framing.RoundTrip | internal/backend/dhcp/socket.go:154-209 | decoding an encoded packet with any padding gives the payload if and only if it has at most 65507 bytes |
| Framing.OwnFramesIgnored | internal/backend/dhcp/socket.go:179-209 | the client's own broadcasts never decode |
| DhcpPacket.BuildMsg | internal/backend/dhcp/packet.go:49-81 | the buffer built is the BOOTP header followed by the encoded options of the message |
| DhcpPacket.MessageBytes | internal/backend/dhcp/packet.go:49-81 | byte for byte: only a release lacks the BROADCAST flag and only it names the client address; the options of each type, with the requested parameters |
| DhcpPacket.ParseReply | internal/backend/dhcp/packet.go:92-125 | the index loop computes the option map for every input and ends on every input |
| DhcpPacket.ParsesEncoded | internal/backend/dhcp/packet.go:104-124 | encoded options are read as the last-value-wins map, whatever follows the end marker or breaks off |
| DhcpPacket.ParsesAnyReply | internal/backend/dhcp/packet.go:92-125 | a reply with any such option list parses to its xid, address and map |
| DhcpPacket.ParsesBuilt | internal/backend/dhcp/packet.go:49-140 | parsing a built message gives its xid and type, and options 50, 54, 55 and 61 exactly when type and arguments call for them |
| DhcpPacket.MaskSizeExact | internal/backend/dhcp/packet.go:153-159 | a mask has size n exactly when it is the contiguous mask of n bits |
| DhcpPacket.CIDRMaskBits | internal/backend/dhcp/packet.go:153-159 | the mask of n bits has exactly its first n bits set |
| DhcpPacket.LeasableExactly | internal/backend/dhcp/packet.go:144-159 | a reply grants a lease if and only if its address is not zero and its mask, if it has one, is contiguous |
| DhcpPacket.OthersAreAbsent | internal/backend/dhcp/packet.go:135-172 | an option of a wrong length, or unknown, is as if it were absent |
| DhcpPacket.WholeAddresses | internal/backend/dhcp/packet.go:160-164 | of a resolver list the whole addresses count |
| DhcpPacket.TypeExactly | internal/backend/dhcp/packet.go:127-133 | a reply is of a type if and only if option 53 is that one byte |
| DhcpPacket.ToLease | internal/backend/dhcp/packet.go:144-172 | a lease comes out exactly for a non-zero address and a contiguous mask |
| DhcpPacket.GrantReadsBack | internal/backend/dhcp/packet.go:144-172 | every lease a server can spell out in options is read back exactly, whatever other options there are |
| DhcpClient.RawSock.Send | internal/backend/dhcp/socket.go:60-72 | one more broadcast frame on the wire, or nothing |
| DhcpClient.WireBroadcasts | internal/backend/dhcp/socket.go:60-72 | over any trace, the frames on the wire are the broadcasts, from no address, of exactly the messages sent |
| DhcpClient.RawSock.RecvReply | internal/backend/dhcp/socket.go:77-126 | takes inputs off the tape until the first packet that is a reply of a wanted type to this transaction; everything before it was none, and no stop came earlier |
| DhcpClient.RawSock.Handshake | internal/backend/dhcp/dhcp.go:100-139 | what it sends and everything it takes off the tape is one round, cut off anywhere, with the outcome that those packets decide |
| DhcpClient.HardwareExactly | internal/backend/dhcp/dhcp.go:48-58 | a given address of six bytes is used, else the interface's own of six |
| DhcpClient.Client.Acquire | internal/backend/dhcp/dhcp.go:48-97 | at most five rounds, each with its own id, none after one that bound, played in order from the tape; without a lease it ends only after five or by cancellation; a lease is recorded exactly when one is returned |
| DhcpClient.AcquireIsSafe | internal/backend/dhcp/dhcp.go:48-139 | for everything Acquire does: five DISCOVERs at most, every REQUEST justified, the lease granted, and every input it saw taken from the tape in order |
| DhcpClient.Client.Release | internal/backend/dhcp/dhcp.go:143-154 | the entry goes, and a RELEASE for exactly that lease, with the recorded address in its bytes 12 to 16, is sent if server, xid and socket are there |
| DhcpClient.EachLeasePaysOnce | internal/backend/dhcp/dhcp.go:143-154 | over any sequence of Acquire and Release, an interface saw at most as many RELEASEs as leases that are no longer held |
| DhcpRounds.AtMostOneDiscoverPerRound | internal/backend/dhcp/dhcp.go:100-112 | over every trace, no more DISCOVERs than rounds |
| DhcpRounds.EveryRequestJustified | internal/backend/dhcp/dhcp.go:100-126 | every REQUEST of a trace is sent when the first OFFER to the transaction of its own DISCOVER has arrived, and asks that server for that address |
| DhcpRounds.LeaseComesFromAck | internal/backend/dhcp/dhcp.go:119-138 | a bound lease is, in all its parts, what the ACK grants that arrived as the first answer to the justified REQUEST, with the server of the OFFER if the ACK names none |
| DhcpRounds.TakenFromTape | internal/backend/dhcp/socket.go:77-126 | what a trace saw is the input at that place of the tape |
| DhcpRounds.MatchesExactly | internal/backend/dhcp/socket.go:107-123 | a packet is taken for an answer if and only if it carries one, from the server to the client port, with the cookie, the transaction id and a wanted type |
| DhcpRounds.FirstDecides | internal/backend/dhcp/socket.go:77-126 | a wait passes over idle reads and other packets, however many, and ends with the first answer, failed read, deadline or cancellation |
| DhcpRounds.RoundHasNoAddress | internal/backend/dhcp/dhcp.go:100-118 | whatever a round sends asks for a broadcast answer and claims no address |
| DhcpRounds.RoundEnds | internal/backend/dhcp/dhcp.go:119-138 | a round binds if and only if its answer is an ACK that grants a lease, and is declined if and only if it is a NAK |
| Bpf.PendingShrinks | internal/backend/dhcp/socket_bpf.go:103-119 | every split that returns leaves less pending, for all bytes |
| Bpf.SplitsFirst | internal/backend/dhcp/socket_bpf.go:103-119 | splitting takes off exactly the first frame as laid out |
| Bpf.RecordIsCapture | internal/backend/dhcp/socket_bpf.go:103-119 | a record in bytes, lengths least significant byte first, is such a frame |
| Bpf.PacketsExactly | internal/backend/dhcp/socket_bpf.go:82-100 | of the frames split off, each with the IPv4 type is delivered without its header, and no other |
| Bpf.EmptyReads | internal/backend/dhcp/socket_bpf.go:82-100 | a failed read is reported, an idle or empty one passed on as quiet |
| Bpf.DrainsAll | internal/backend/dhcp/socket_bpf.go:103-119 | repeated splitting returns exactly the captured frames in order, the last possibly unpadded |
| Bpf.BpfState.Next | internal/backend/dhcp/socket_bpf.go:82-100 | each call takes one delivery off the front of the stream that the pending bytes and the reads to come stand for |
| Bpf.BpfState.Send | internal/backend/dhcp/socket_bpf.go:71-79 | the frame has the broadcast address, the hardware address cut or zero-filled to six bytes, and the packet |
| Bpf.FrameSays | internal/backend/dhcp/socket_bpf.go:71-79 | the fields of that frame, byte for byte |
| Bpf.DeliversIPv4 | internal/backend/dhcp/socket_bpf.go:82-119 | well laid-out reads are delivered as exactly their IPv4 packets, in order, without a panic |
| Bpf.SplitPanicsExactly | internal/backend/dhcp/socket_bpf.go:103-119 | a split reads past its slice if and only if 24 or 25 bytes are pending |
| Bpf.DrainPanicsExactly | internal/backend/dhcp/socket_bpf.go:103-119 | draining a read panics if and only if after some number of splits 24 or 25 of its bytes are left |
| Bpf.CrashesExactly | internal/backend/dhcp/socket_bpf.go:82-119 | a caller that keeps asking crashes if and only if draining the pending bytes or those of some read panics |
| Bpf.SentArrives | internal/backend/dhcp/socket_bpf.go:71-119 | a packet sent by one socket and captured by another arrives unchanged |
| Legacy.Closing | internal/nmapi/legacy.go:64-85 | the scan returns the matching index of its specification, on every input |
| Legacy.ClosingIsMatching | internal/nmapi/legacy.go:64-85 | an index is returned exactly when a closing bracket stands there and the text between is balanced |
| Legacy.StartsPair | internal/nmapi/legacy.go:134-145 | true exactly when a non-empty run of key characters ends at the first colon |
| Legacy.StartsPairExactly | internal/nmapi/legacy.go:134-145 | the same told without the scan: a key followed by a colon |
| Legacy.ValueEnd | internal/nmapi/legacy.go:112-132 | the loop agrees with the recursive scan, on every input |
| Legacy.ValueSkips | internal/nmapi/legacy.go:112-132 | a well-formed value is taken whole, up to the next pair or the end |
| Legacy.LegacyPairs | internal/nmapi/legacy.go:87-109 | the loop agrees with the recursive reading and ends on every input |
| Legacy.PairsUndoPrint | internal/nmapi/legacy.go:87-132 | printed pairs read back as exactly the same keys with the same value texts |
| Legacy.ValueTrimmed | internal/nmapi/legacy.go:99-107 | white space around a value is not part of it |
| Legacy.LegacyMaps | internal/nmapi/legacy.go:40-61 | the loop agrees with the recursive reading and ends on every input |
| Legacy.MapsUndoPrint | internal/nmapi/legacy.go:40-145 | reading a printed list of maps gives exactly those maps with exactly those value texts |
| Legacy.LegacyStrings | internal/nmapi/legacy.go:32-38 | one string per field, its quotes trimmed |
| Legacy.StringsUndoPrint | internal/nmapi/legacy.go:32-38 | a list survives printing if and only if every string is non-empty, without white space and not quoted at an end |
| Legacy.SpelledStrings | internal/nmapi/legacy.go:32-38 | words that spell strings, bare or in quotes, are read as those strings |
| Legacy.Refused | internal/nmapi/legacy.go:40-61 | text without a key, or that opens no map that closes again, is refused |
| Keyfile.GroupNames | internal/nmapi/settings.go:598-615 | renaming to file and back is the identity exactly for names that are no short name |
| Keyfile.LegacyVariant | internal/nmapi/legacy.go:14-30 | the value of an untyped list entry, none for other keys or shapes |
| Keyfile.LegacyMapsRead | internal/nmapi/legacy.go:9-61 | a printed list under one of the four map keys is read as exactly its maps |
| Keyfile.LegacyStringsRead | internal/nmapi/legacy.go:14-38 | a list under one of the four list keys, its words bare or in quotes, is read as exactly its strings |
| Keyfile.OldFormExactly | internal/nmapi/legacy.go:14-30 | an entry is read in the old form if and only if it is a bracketed list under a key that has one, and not the ssid; any other reads as usual |
| Keyfile.TypedExactly | internal/nmapi/settings.go:665-676 | a marked value is what its text parses to under its signature, everything else a string |
| Keyfile.KeysAscend | internal/nmapi/settings.go:623-640 | groups and keys stand in ascending order |
| Keyfile.KeysInOrder | internal/nmapi/settings.go:623-627 | whatever order the map is walked in, the sorted keys are the same |
| Keyfile.WriteKeyfile | internal/nmapi/settings.go:619-651 | the text is a function of the settings alone |
| Keyfile.ReadKeyfile | internal/nmapi/settings.go:687-725 | settings and legacy mark of the line-by-line reading, on every text |
| KeyfileTrips.ReadsBack | internal/nmapi/settings.go:619-725 | reading what was written gives, entry by entry, what its printed value means, and is in the old form exactly if one of them is |
| KeyfileTrips.OldStringsFile | internal/nmapi/settings.go:687-725 | a file with a list of strings in the old form reads as that list under the D-Bus name of its group, and is marked as old |
| KeyfileTrips.OldMapsFile | internal/nmapi/settings.go:687-725 | so does one with a list of maps |
| KeyfileTrips.SurvivesExactly | internal/nmapi/settings.go:619-725 | settings whose entries print to one line each come back unchanged if and only if each entry does; then nothing is in the old form |
| KeyfileTrips.RoundTrip | internal/nmapi/settings.go:619-725 | for well-formed settings, reading what was written gives them back, bytes other than the ssid as strings, and nothing is legacy |
| KeyfileTrips.RewriteExactly | internal/nmapi/settings.go:66-74 | for any file text, legacy or not, whose values are one line: what was read survives write and read if and only if each entry does, and then unmarked |
| KeyfileTrips.RewriteConverges | internal/nmapi/settings.go:66-74 | it does for every file of settled lines: no entry spells out text that is more than a line or looks like another value, bytes outside the ssid, or a value under a key that opens with a bracket |
| KeyfileTrips.TypedTextExactly | internal/nmapi/settings.go:654-676 | an entry that spells out a line of text survives a rewrite if and only if that text does not read as another value |
| KeyfileTrips.TypedTextExample | internal/nmapi/settings.go:654-676 | an entry that does not exists |
| Profiles.SettingsConnection.GetSettings | internal/nmapi/settings.go:343-347 | everything but the wifi passphrase |
| Profiles.PassphraseNeverRead | internal/nmapi/settings.go:343-347 | a client gets every entry as it is, but never the wifi passphrase |
| Profiles.SettingsConnection.Update | internal/nmapi/settings.go:361-374 | the profile becomes what was sent plus the kept secrets, and so does the file if it can be written |
| Profiles.UpdateKeepsSecrets | internal/nmapi/settings.go:397-409 | a key is in the result exactly if it was sent or is an omitted secret of a group still present; nothing sent is changed |
| Profiles.ReadThenUpdate | internal/nmapi/settings.go:343-409 | writing back what was read changes nothing |
| Profiles.UpdateIsOnDisk | internal/nmapi/settings.go:361-409 | the file after an update reads back as the updated profile, secrets included |
| Netlink.AppendAttr | internal/backend/rtnl/wire.go:29-40 | the padding loop pads the whole buffer to four bytes |
| Netlink.WgAttr | internal/backend/wg/netlink.go:82-89 | the buffer filled in place is the padded attribute |
| Netlink.SameBytes | internal/backend/wg/netlink.go:82-91 | the two encoders emit the same bytes if and only if the buffer before is aligned |
| Netlink.ForEachAttr | internal/backend/rtnl/wire.go:96-106 | the attributes walked and whether the walk slices past the end, for all bytes |
| Netlink.AlignedNeverPanics | internal/backend/rtnl/wire.go:96-106 | a 4-aligned run is never sliced past its end |
| Netlink.PanicsExactly | internal/backend/rtnl/wire.go:96-106 | no run of a length is sliced past its end if and only if the length is a multiple of four or too short for a header |
| Netlink.RunRoundTrip | internal/backend/rtnl/wire.go:29-106 | the walk gives back exactly the attributes encoded, if and only if each value has at most 65531 bytes |
| Netlink.NestedRoundTrip | internal/backend/rtnl/wire.go:137-145 | a container holds and gives back its own run |
| Netlink.ParseLink | internal/backend/rtnl/wire.go:109-153 | the link decoded from any bytes, the later of repeated attributes winning, nested panics included |
| NetlinkMessages.LastCounts | internal/backend/rtnl/wire.go:122-146 | of several attributes of a type the last one counts, wherever it stands |
| NetlinkMessages.LinkReads | internal/backend/rtnl/wire.go:109-182 | every device the kernel can describe, its attributes in any order among any others, is read as exactly what it is: numbers, name, address, up and carrier, and the kind by flag, hardware type, nested kind or sysfs |
| NetlinkMessages.LinkFailsExactly | internal/backend/rtnl/wire.go:109-146 | a message is refused if and only if it is shorter than its header, and crashes the decoder if and only if its own run or a nest in it is sliced past the end |
| NetlinkMessages.IfInfoReads | internal/backend/wg/netlink.go:60-67 | the fields of a request header, also for a negative index |
| Netlink.CStrOfTerminated | internal/backend/rtnl/wire.go:200-205 | a terminated name is read back exactly when it has no NUL |
| Netlink.CreateLinkBody | internal/backend/wg/netlink.go:21-29 | the request body is header, name and nested kind |
| Netlink.CreateLinkDecodes | internal/backend/wg/netlink.go:21-91 | that body is decoded as kind WireGuard, down, index 0; with that name if and only if it has no NUL |
| Netlink.FillMessage | internal/backend/wg/netlink.go:105-113 | the padded message |
| Netlink.SameMessage | internal/backend/rtnl/wire.go:16-26 | both framers give the same message if and only if the payload is aligned |
| NetlinkMessages.FramesRead | internal/backend/rtnl/wire.go:16-26 | both framers put length, type, flags and sequence where a reader finds them, the length without the padding, and carry the payload |
| Dns.OrderedWhateverTheOrder | internal/backend/sys/dns.go:64-73 | any listing of the entries sorts to the same sequence, sorted by priority then interface and holding them all |
| Dns.OrderedByPriority | internal/backend/sys/dns.go:64-73 | an entry before another has a lower priority, or the same and a smaller interface name |
| Dns.DedupGrows | internal/backend/sys/dns.go:75-89 | first occurrences keep their order: the result for a list is a prefix of the result for a longer one |
| Dns.FirstThreeServers | internal/backend/sys/dns.go:75-92 | the servers are the first three distinct valid addresses: for every place in the entries, the distinct ones up to it come first, up to three |
| Dns.DomainsInOrder | internal/backend/sys/dns.go:94-116 | the domains are, in the order of the entries, the longest front of the distinct trimmed ones with at most six and a joined text under 256 bytes |
| Dns.Utf8LenIsBytes | internal/backend/sys/dns.go:109-115 | lengths are counted in bytes of the text |
| Dns.FitIsLongest | internal/backend/sys/dns.go:106-116 | the domains kept are the longest prefix with at most six entries and 256 bytes counting separators |
| Dns.DnsManager.Render | internal/backend/sys/dns.go:63-132 | the body is the function of the entry map alone that the specification gives |
| Dns.DnsManager.Set | internal/backend/sys/dns.go:43-51 | one entry replaced, the file rewritten from all, or kept if it cannot be written |
| Dns.DnsManager.Revert | internal/backend/sys/dns.go:54-59 | one entry dropped, likewise |
| Dns.SetsCommute | internal/backend/sys/dns.go:43-51 | reports of two interfaces give the same file in either order |
| Dns.SetRevertRestores | internal/backend/sys/dns.go:43-59 | taking back what a fresh interface reported restores the body |
| Dns.BodyParses | internal/backend/sys/dns.go:118-131 | a resolver reads both lists back if and only if no domain holds white space |
| Dns.FileParses | internal/backend/sys/dns.go:63-132 | the same for the file any entries render to |
| WpaScan.Unescape | internal/backend/wpa/wpa.go:254-283 | the loop decodes as specified and never lengthens its input |
| WpaScan.UnescapeInverts | internal/backend/wpa/wpa.go:254-283 | decoding undoes the supplicant's printf encoding for every SSID |
| WpaScan.EmptyExactly | internal/backend/wpa/wpa.go:254-283 | a raw field decodes to the empty SSID if and only if it is a repetition of `\x` |
| WpaScan.EmptyListedExactly | internal/backend/wpa/wpa.go:197-230 | a scan lists the empty SSID if and only if some line has such a field |
| WpaScan.StrengthGrows | internal/backend/wpa/wpa.go:232-238 | a percentage that grows with the signal wherever doubling does not wrap |
| WpaLines.PercentExactly | internal/backend/wpa/wpa.go:232-238 | for every signal a line can spell: the percentage is right if and only if doubling stays within 64 bits, or the last byte of what it wraps to happens to be right |
| WpaLines.SecurityExactly | internal/backend/wpa/wpa.go:240-251 | the security by the words that the flags mention |
| WpaLines.AtoiReads | internal/backend/wpa/wpa.go:206-207 | a printed number is read back, also a negative one; one of more than 64 bits as the nearest bound |
| WpaLines.CandidateExactly | internal/backend/wpa/wpa.go:202-205 | a line names an access point if and only if it has five fields, the last not empty |
| WpaLines.LineReads | internal/backend/wpa/wpa.go:202-214 | which field is used for what |
| WpaLines.ReportReads | internal/backend/wpa/wpa.go:202-214 | the line of a network is read as exactly that network: address, frequency, percentage, security and SSID |
| WpaLines.ScanReads | internal/backend/wpa/wpa.go:197-230 | the scan of a reported list is that list, one entry per SSID, ranked, the heading passed over |
| WpaLines.OtherEscapes | internal/backend/wpa/wpa.go:254-283 | escapes that the encoder does not use: capital digits, other letters, a lone backslash |
| WpaScan.ParseScanResults | internal/backend/wpa/wpa.go:197-230 | the two loops compute the specified scan for every text, the index map staying right under replacement |
| WpaScan.MergeIn | internal/backend/wpa/wpa.go:214-222 | one candidate merged, the index map still exact |
| WpaScan.MergedIsBest | internal/backend/wpa/wpa.go:198-223 | one entry per SSID, the first of the strongest, in order of first appearance |
| WpaScan.Rank | internal/backend/wpa/wpa.go:224-228 | the in-place sort leaves the ranking of what was there |
| WpaScan.RankedIsStable | internal/backend/wpa/wpa.go:224-228 | the ranking is a permutation, strongest first, equals in their old order |
| WpaScan.ScanIsRight | internal/backend/wpa/wpa.go:197-230 | for every text: exactly one entry per decoded SSID, each its first strongest line, strongest first, ties in order of appearance |
| WpaProfiles.ProfileName | internal/backend/wpa/wpa.go:548-556 | the encoded name |
| WpaProfiles.NameInjective | internal/backend/wpa/wpa.go:548-556 | different SSIDs have different names |
| WpaProfiles.NameExactly | internal/backend/wpa/wpa.go:548-556 | a name is the SSID itself if that has only letters, digits, minus, underscore and space, else an equals sign and its bytes in hexadecimal |
| WpaProfiles.PathsDiffer | internal/backend/wpa/wpa.go:548-598 | different SSIDs or kinds of profile never share a file |
| WpaProfiles.SecretReadsBack | internal/backend/wpa/wpa.go:558-598 | a secret is read back if and only if it is one trimmed line |
| WpaProfiles.ProfileSays | internal/backend/wpa/wpa.go:593-597 | a secret of 64 hexadecimal digits is saved as a key, any other as a passphrase |
| WpaProfiles.PassphraseWins | internal/backend/wpa/wpa.go:568-581 | of a key and a passphrase in one file the passphrase counts, in either order |
| WpaProfiles.Store.SaveProfile | internal/backend/wpa/wpa.go:585-598 | exactly one file written |
| WpaProfiles.Store.Profile | internal/backend/wpa/wpa.go:558-583 | the saved secret, an open profile taking precedence |
| WpaProfiles.Store.Forget | internal/backend/wpa/wpa.go:411-429 | both files removed, and success exactly if there was one |
| WpaProfiles.SaveKeepsOthers | internal/backend/wpa/wpa.go:585-598 | saving one network leaves all others alone |
| WpaProfiles.OpenReadsBack | internal/backend/wpa/wpa.go:558-598 | an open network is found after it was saved, whatever was saved before |
| WpaProfiles.SecretSurvives | internal/backend/wpa/wpa.go:558-598 | a saved secret is looked up again if and only if it is empty, or one trimmed line with no open profile in the way |
| WpaProfiles.ForgetKeepsOthers | internal/backend/wpa/wpa.go:411-429 | forgetting one network leaves all others alone |
| WpaProfiles.ForgetForgets | internal/backend/wpa/wpa.go:411-429 | forgetting removes the network for every SSID but the empty one, whose profile stays |
| WpaProfiles.ForgetReports | internal/backend/wpa/wpa.go:411-429 | it reports success if and only if there was a profile; for the empty SSID if and only if one of two files is there that no profile is ever saved under |
| Wireless.WifiDevice.PopulateAPs | internal/nmapi/wireless.go:30-85 | on the objects: the reconciliation, for any scan, also one with repeated handles |
| Wireless.PopulateInStep | internal/nmapi/wireless.go:30-85 | after a scan with distinct handles list, index and bus agree and show exactly the scan in its order; survivors keep their paths |
| Wireless.ExactDifferences | internal/nmapi/wireless.go:46-64 | added and removed are the exact set differences and a new path was never used before |
| Wireless.AlwaysInStep | internal/nmapi/wireless.go:30-85 | after any number of scans the objects on the bus are those of the last one |
| Wireless.InStepExactly | internal/nmapi/wireless.go:30-85 | from a state in step, a scan leaves one that is in step and shows it if and only if no handle is repeated |
| Wireless.LeaksExactly | internal/nmapi/wireless.go:46-64 | an object is left on the bus that no handle leads to if and only if a handle without an object is repeated; one that has an object is only listed twice |
| Wireless.OrphanForever | internal/nmapi/wireless.go:46-64 | such an object stays on the bus whatever scans follow |
| Wireless.WpaHandlesDistinct | internal/backend/wpa/wpa.go:184-195 | the wpa backend never reports a handle twice |
| Wireless.WpaAlwaysInStep | internal/backend/wpa/wpa.go:184-230 | so with it the objects always are the networks of the last report, whatever the supplicant says |
| Vpn.RouteUnique | internal/nmapi/vpn.go:319-330 | longest prefix, then lowest metric, picks one route at most |
| Vpn.HalvesCover | internal/nmapi/vpn.go:280-295 | the halves cover exactly the addresses of the destination and are never a default route |
| Vpn.TunnelKeysExactly | internal/nmapi/vpn.go:319-330 | the tunnel asks for exactly the halves of the AllowedIPs, with metric 50 |
| Vpn.Routes.BringUp | internal/nmapi/vpn.go:319-356 | the route table after it, with whatever routes the kernel refuses, and the routes noted for teardown |
| Vpn.Routes.TearDown | internal/nmapi/vpn.go:366-371 | exactly the noted routes are deleted, and the note is cleared |
| Vpn.FullTunnel | internal/nmapi/vpn.go:319-356 | every IPv4 address no narrower route covered goes into the tunnel, except the peers' endpoints, which go to the gateway even when AllowedIPs lists them |
| Vpn.GatewayWasTheWay | internal/nmapi/vpn.go:249-278 | the gateway found in the list read after the tunnel was routed is the way an address took before that only a default route covered |
| Vpn.EndpointsStay | internal/nmapi/vpn.go:319-356 | so under a full tunnel the endpoints resolve exactly as before |
| Vpn.TunnelWinsExactly | internal/nmapi/vpn.go:319-330 | for partial tunnels: an address goes into the tunnel if and only if no earlier route is narrower than the longest entry covering it, or as narrow and preferred |
| Vpn.TearDownRestores | internal/nmapi/vpn.go:366-371 | teardown and link removal restore the table if and only if none of its routes had a key the tunnel uses |
| Vpn.DefaultGateway4 | internal/nmapi/vpn.go:249-278 | the first usable default route with the lowest metric, none exactly if there is none |

## Left out

- D-Bus export, introspection, property tables and signals: exported objects are sets of paths, and whether an export succeeds is a parameter where the code branches on it.
- Sockets, ioctls, sysfs, netlink transport, timers, name lookup and temporary files: replaced by tapes of inputs, route tables, file maps and parameters.
- The iwd backend, rfkill, the connectivity probe, root properties and the enum mappings: thin.
- godbus' variant printer and parsers: parameters of `Keyfile`; where a result needs them to be inverse on a value, that is a hypothesis of the lemma. Legacy values are kept as raw text and read through such a parameter.
- Text that is not valid UTF-8: keyfile bytes are represented by the text they decode to.
- The directory of saved networks is taken as already clean; reading and writing files there is taken to succeed.
- KeyfileTrips.RoundTrip: gives sufficient conditions on the settings; which entries come back at all is what KeyfileTrips.SurvivesExactly says.
- KeyfileTrips.RewriteExactly: nothing is said of a file in which a typed entry spells out text with a line feed, which the writer spreads over several lines.
- Profiles.SettingsConnection.Update: identifier and name caches and the bus signal are not modelled.
- Activation.Manager.BringUpEffect: kernel addresses, routes and resolver calls of a bring-up are in other modules; here only what it writes to the objects counts.
- Activation.Manager.DeleteProfile: the removal of the keyfile itself is not modelled.
- DhcpClient.RawSock.RecvReply: the clock is a Deadline input, so nothing is said about how long a wait lasts.
- LockSerial.SerialRuns: the State properties of devices and connections are written outside the locks and are in ActivationSpec only.
- DhcpClient.Client.Acquire: the interface map is used by one caller at a time; the mutex around it is not modelled.
- Vpn.FullTunnel: the routes the kernel adds for the tunnel's own addresses are not in the table; they go with the link.
- Vpn.DefaultGateway4: takes metrics as the kernel's non-negative numbers; parsing the text of the route list is left out.
- Netlink: address and route messages use the same attribute encoder and add no new case; the acknowledgement decoder is one branch.
- Access-point property mapping, link-local leases, resolver symlink handling and profile file names: one-branch facts.
