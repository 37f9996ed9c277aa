# Reliaburger, verified

A Dafny model of the parts of Reliaburger whose correctness rests on more than one
step: protocols between processes, kernel maps that two programs read differently,
a packet rewritten in place, a pipeline of rewriting rules, and controllers whose
guarantee is about whole runs. Every file takes the form of the code it models:
loops, classes and updated fields where the code has them, functions where it only
computes.

`dafny verify dfyconfig.toml` checks everything, and warns where assumptions contradict
each other.

## What is modelled

- **Lock files** (`FlockKernel`, `FileLocking`). The kernel's view of one lock file:
  a path, open file descriptions that own locks, inherited descriptors, inode numbers
  that are used again. Every process steps through open, lock, check the name, unlink
  and release in any interleaving. The `FileLock` methods and the retry loop of the
  route lock run inside it, overtaken by the others wherever they can be.
- **Durable records** (`DurableRead`). A reader that opens, validates, reopens and
  reads with a limit while writers rename, link and append between any two calls.
- **Onion's connect hook** (`Modular`, `OnionSelect`, `OnionHooks`, `OnionPolicy`,
  `OnionNode`). Round-robin selection over a 32-bit index, namespace isolation at VIPs
  and at real addresses, the four hooks as one policy, and the node they run on:
  connects, the view lease, and an agent that rewrites the maps in between.
- **Egress policy** (`EgressBits`, `EgressMerge`, `EgressMaps`). Allowlists merged in
  user space, written into an exact map and a longest-prefix trie, and read back by
  the hook with one lookup each.
- **The DNS answerer** (`Checksum`, `DnsName`, `DnsMessage`, `DnsAnswer`). The name
  hash's counter loop, the recognised queries, the rewritten packet and both
  checksums, against RFC 1035's wire format and RFC 1071's sum.
- **The secret redactor** (`Rewriting`, `RedactRules`, `RedactStability`,
  `RedactOnce`, `Passing`, `RedactKeyValues`, `RedactKeys`, `RedactPairs`,
  `RedactLast`, `Redact`, `RedactExtent`, `RedactNamed`, `RedactBridge`, `RedactOpen`,
  `RedactTame`). Four rules that know a secret by its shape and the rule that knows it
  by its key, what each replaces, the loops that apply them, and exactly when a second
  pass finds nothing.
- **Export retention** (`Retention`), **the failover controller** (`Failover`), **the
  coverage owner** (`CoverageOwner`), **the artefact fetch** (`FetchArtifact`) and
  **the workload sampler** (`WorkloadPids`).

Clocks, random choices, process identities, the network and other processes are
parameters: a schedule, a list of events, or an answer chosen by the environment.

## Where the code falls short of the plain statement

For each there is a theorem that says exactly when the plain statement holds; where
another lemma is named beside it, that one is an input at which it fails.

- A scan over the backends is complete, and connects are fair, for every pattern of
  usable backends exactly when the 32-bit index does not wrap during a scan or the
  count is a power of two (`OnionSelect.MissedIsMissed`, `OnionSelect.CompleteIffSteady`,
  `OnionSelect.FairIffSteady`).
- The mapped hooks agree with the IPv4 ones except at `::ffff:0.0.0.0`
  (`OnionHooks.HooksDifferAtZero`), where they differ exactly under the stated
  condition (`OnionHooks.HooksAgree`).
- A caller the VIP serves can be turned away at the backend's own address, and one
  with a grant to the contested identity can get through there alone; the two agree
  exactly under the stated condition (`OnionHooks.VipAndRealAddressAgree`).
- The DNS reply keeps the query's authority count (`DnsAnswer.SomeReplyDoesNotDecode`),
  so it decodes exactly when that count is zero (`DnsAnswer.ReplyDecodes`); it leaves
  without a UDP checksum exactly when the query's question ends at an odd offset
  (`DnsAnswer.SomeReplyHasNoChecksum`, `DnsAnswer.NoChecksumIffOdd`).
- Merging an allowlist fails exactly when some listed prefix ends up with more than
  eight ports (`EgressMerge.NinePortsAreTooMany`, `EgressMerge.MergeCidrPorts`).
- Redacting twice is documented to change and count nothing. With the key-value rule
  it can: in `a://t,password=b/c,x@h` the first pass takes out the slash that ended
  the URL's authority, and the second takes what precedes the `@` for credentials
  (`RedactBridge.SecondPassFires`, with any lower-case letters around the slash and one
  at least before it). A second pass is clean exactly when the text the key-value rule
  is given is not bridged: no scheme stands in what the rule leaves alone whose
  authority, read on through the values that give way, reaches an `@` beyond a leading
  `@` or `[redacted]@` (`RedactOpen.CleanIffNotBridged`). So it is whenever no value
  taken out has white space, `/`, `?` or `#` in it (`RedactTame.TameIsClean`).
- A delete that takes effect but is reported as failed leaves the failover
  controller's count standing, and the next app can be abandoned after a single check
  (`Failover.UntoldDeleteFailsOverEarly`). A failover is earned exactly when no such
  delete lies fewer than `threshold` seen checks back (`Failover.FailoverIsEarnedIff`),
  and such a delete can do harm later exactly when the threshold is at least two and
  the count stands between zero and its limit (`Failover.UntoldDeleteHarmsIff`).
- A process that dies while a child holds a copy of its descriptor leaves the lock
  behind with no guard (`FlockKernel.ClosingAloneLeavesTheLockHeld`); that is the only
  way a lock loses its guard (`FlockKernel.OnlyADeathOrphans`).

## Model

| member | source | states |
|---|---|---|
| FlockKernel.MutualExclusion | src/file_lock.rs:105-137 | In every interleaving of any number of processes at most one is between a successful name check and its own unlink or unlock, and the path still names its file, inode numbers being reused freely |
| FlockKernel.RefusedOnlyByALiveGuard | src/file_lock.rs:61-98 | In every run, deaths included, a try_lock is refused exactly when another live guard holds that inode or a process died holding it and a child still has its descriptor; mid-spawn copies of released descriptors never refuse anyone |
| FlockKernel.ClosingAloneLeavesTheLockHeld | src/file_lock.rs:139-147 | A run in which a process that dies without unlocking leaves the lock held with no guard alive |
| FlockKernel.RunKeepsInv | src/file_lock.rs:105-137 | Ownership of descriptions, exclusiveness of locks and the guards' hold survive every run |
| FlockKernel.RunAccountsForLocks | src/file_lock.rs:139-147 | In every run, deaths included, each lock has a live guard or is kept only by copies of a descriptor whose opener is gone |
| FlockKernel.OnlyADeathOrphans | src/file_lock.rs:139-147 | A step takes a lock's guard away and leaves the lock exactly when its process dies while a child has a copy of the descriptor |
| FlockKernel.OrphanLastsAsLongAsItsCopies | src/file_lock.rs:139-147 | An orphaned lock lasts until the last child has closed its copy of the descriptor, and no longer |
| FileLocking.StaleIsForever | src/file_lock.rs:105-120 | While a process keeps its descriptor, a path that stopped naming its file never names it again, so a false still_names is final |
| FileLocking.OthersKeepMine | src/file_lock.rs:61-98 | Whatever the other processes do moves neither this process nor the description it owns |
| FileLocking.AfterIs | src/file_lock.rs:79-98 | A poll sees everything the other processes did before it, in order |
| FileLocking.StaleThroughRelease | src/file_lock.rs:122-137 | A stale lock's release cannot bring its file's name back |
| FileLocking.Host.TryLock | src/file_lock.rs:68-77 | Succeeds exactly when no other description holds the inode; a refusal gives the descriptor back |
| FileLocking.Host.LockWithin | src/file_lock.rs:79-98 | Takes the lock at the first poll that finds it free and gives up only after finding it held at every poll |
| FileLocking.Host.StillNames | src/file_lock.rs:105-120 | True exactly when the path names the locked file, and only then does the holder become critical |
| FileLocking.Host.Drop | src/file_lock.rs:139-147 | Afterwards the description, if a child still has it, is neither locked nor held by this process |
| FileLocking.Host.UnlinkIfNamed | src/file_lock.rs:127-137 | Unlinks exactly the file that was checked: nobody can replace it between the check and the unlink |
| FileLocking.Host.Remove | src/file_lock.rs:122-137 | Removes the file exactly when the path named it and the unlink worked, then releases the lock |
| FileLocking.UnlinkLeaves | src/file_lock.rs:122-137 | A remove that nobody overtakes leaves no name, or the one there was if the unlink fails or the name is another file's |
| FileLocking.Host.Validate | src/durable.rs:27-53 | Refuses exactly when the file is not private or the path no longer names it, and gives the descriptor back |
| FileLocking.Host.LockOnce | src/grill/mixed.rs:360-386 | One round of open, validate, poll and check the name ends exactly as its schedule says: refused when the file was not private or had lost its name when validated, busy when the open failed or every poll found the lock held, claimed or given up by whether the path names the file once the first free poll has taken it; anything but a claim leaves nothing behind |
| FileLocking.Host.LockRoute | src/grill/mixed.rs:360-386 | The route ends exactly as its first round that is not given up does, and is given up only if all are; a claimed route is held by this process alone, under the name it was opened by, and any other ending leaves the process with nothing |
| FileLocking.OneEnding | src/grill/mixed.rs:360-386 | For every world and schedule at most one ending of a round fits |
| FileLocking.UncontendedRoundClaims | src/grill/mixed.rs:372-385 | A round nobody interferes with, on a private file nobody has locked or on none yet, claims it |
| FileLocking.OneRouteEnding | src/grill/mixed.rs:360-386 | For every world and sequence of rounds at most one ending of a route fits |
| DurableRead.ScheduleIsTimeline | src/durable.rs:78-81 | Every schedule of renames, links, removals and appends gives a timeline in which files only grow, and stay as they are when nobody appends |
| DurableRead.Persists | src/durable.rs:78-81 | An inode seen at one call is there at every later one, with at least the content it had |
| DurableRead.NamesAreCounted | src/durable.rs:78-81 | Renames, removals and hard links change a file's link count exactly as they change its names |
| DurableRead.OpenValidated | src/durable.rs:82-108 | The descriptor was valid at one snapshot after at most eight reopens, each after a file that had vanished; other access levels never reopen; every error names the call at which it was seen |
| DurableRead.ReadBounded | src/durable.rs:114-133 | A successful read is the whole file within the limit; when writers only rename it is exactly the version the path named when it was opened, under any interleaving and any short reads; a file over the limit when opened is refused without reading |
| DurableRead.ReadRecord | src/durable.rs:78-133 | Over every start and every schedule: a read that succeeds when writers only rename returns a version the path named at one moment of the call |
| DurableRead.ValidIs | src/durable.rs:32-42 | By the octal digits of the mode: a private file is the reader's own and closed to group and others, an exclusive one besides has owner digit 6 and one link |
| OnionSelect.SlotIsRemainder | ebpf/onion_connect.bpf.c:439-439 | The program's 32-bit sum and remainder are the slot of the model |
| OnionSelect.Probe | ebpf/onion_connect.bpf.c:439-457 | The program's own index arithmetic, wrapping at 32 bits, gives the slot looked at and the next index |
| OnionSelect.BackendValue.Select | ebpf/onion_connect.bpf.c:422-463 | The loop returns the first usable slot in probe order, remembers the probe after it, and leaves the index alone when there is none |
| OnionSelect.CompleteIffSteady | ebpf/onion_connect.bpf.c:432-460 | For 1 to 32 backends the scan finds a usable one whenever there is one, for every pattern, exactly when the index does not wrap during the scan or the count is a power of two |
| OnionSelect.MoreThan32IsTooMany | ebpf/onion_connect.bpf.c:432-460 | An entry claiming more than 32 backends would be scanned incompletely |
| OnionSelect.SteadyScanIsComplete | ebpf/onion_connect.bpf.c:432-460 | A scan that does not jump succeeds exactly when some backend is usable |
| OnionSelect.MissedIsMissed | ebpf/onion_connect.bpf.c:432-460 | When the index wraps and the count does not divide 2^32, no probe looks at the slot named |
| OnionSelect.Fairness | ebpf/onion_connect.bpf.c:422-471 | With k usable backends any k connects in a row pick each exactly once, in cyclic order, under the same condition |
| OnionSelect.FairIffSteady | ebpf/onion_connect.bpf.c:432-460 | That holds for every pattern of usable backends if and only if the index does not wrap during a scan or the count is a power of two |
| OnionHooks.HooksAgree | ebpf/onion_connect.bpf.c:482-524 | connect4 and sendmsg4 decide alike at every real address; the mapped hooks agree with them exactly outside one stated case at 0.0.0.0 |
| OnionHooks.HooksDifferAtZero | ebpf/onion_connect.bpf.c:482-524 | A policy and a caller on which the mapped hook accepts what the IPv4 hook refuses |
| OnionHooks.DestinationEntries | src/sesame/firewall.rs:252-308 | Each claimed key gets its one owner, or the contested owner exactly when two owners claim it |
| OnionHooks.ClaimOneResolves | src/sesame/firewall.rs:258-270 | Settling one more claim keeps the map the resolution of the claims so far |
| OnionHooks.ClaimOrderDoesNotMatter | src/sesame/firewall.rs:250-270 | Two orders of the same claims resolve to the same map |
| OnionHooks.BackendIsClaimed | src/sesame/firewall.rs:271-297 | Every listed backend's address is claimed for its service |
| OnionHooks.IsolationAdmits | ebpf/onion_connect.bpf.c:141-176 | Exactly the callers outside every namespace, of the owner's namespace, or with an explicit grant get through, the caller's own entry deciding before its run identity's, in terms of the maps' entries |
| OnionHooks.ContestedRefusesNamespaced | src/sesame/firewall.rs:250-270 | A contested address refuses every namespaced caller, short of a grant to the contested identity itself |
| OnionHooks.VipAndRealAddressAgree | ebpf/onion_connect.bpf.c:157-194 | Isolation answers alike at a backend's real address and through the VIP exactly when nobody else claims the address, or the caller has no namespace, or it is admitted to the contested identity exactly when it is to the service |
| OnionHooks.AgreementWithoutContestedGrants | ebpf/onion_connect.bpf.c:157-194 | For a caller not admitted to the contested identity the two differ exactly where the VIP lets it through and someone else claims the address; what the VIP refuses, the address refuses |
| OnionPolicy.RefusedByOwner | ebpf/onion_connect.bpf.c:178-194 | A real address refuses exactly the namespaced callers that the owner of the address and port, or failing that of the address's port 0, does not admit |
| OnionPolicy.Ipv4HooksPass | ebpf/onion_connect.bpf.c:317-338 | After its cgroup's list is programmed, connect4 passes a real address exactly when its owner admits the caller and, with the flag set, the list permits its octets and port; sendmsg4 likewise, and all of 127.128.0.0/16 |
| OnionPolicy.MappedHooksPass | ebpf/onion_connect.bpf.c:482-524 | The IPv6 hooks pass a v4-mapped address under the same two conditions, except that isolation is not asked about 0.0.0.0 nor egress about 127.128.0.0/16 |
| OnionPolicy.NativeHooksPass | ebpf/onion_connect.bpf.c:482-524 | They pass a native IPv6 address exactly when the flag is not set or the list permits its sixteen octets and port |
| OnionPolicy.ClaimsAreClaimed | src/sesame/firewall.rs:271-308 | Claimed are exactly the services' backends with their ports and port 0 of each local workload's address |
| OnionPolicy.EntryIs | src/sesame/firewall.rs:252-308 | A claimed address and port gets its one claimant, or the contested identity exactly when there are several |
| OnionPolicy.WorkloadIsGuarded | src/sesame/firewall.rs:252-308 | End to end: on every port that is no service's, a local workload's address refuses exactly the namespaced callers its owner, or the contested identity where two owners claim the address, does not admit |
| OnionNode.Node.OnionConnect | ebpf/onion_connect.bpf.c:317-472 | The hook's branches, the entry's index moved by the selection loop and every other entry untouched, are one step of the node |
| OnionNode.RealIsPassedIff | ebpf/onion_connect.bpf.c:321-338 | A connect outside 127.128.0.0/16 changes nothing and passes exactly when the address's owner admits the caller and, with the flag set, the programmed list permits it |
| OnionNode.AcceptedIff | ebpf/onion_connect.bpf.c:317-472 | A VIP connect is accepted exactly when no fault, missing or empty entry, isolation rule or empty scan refuses it; a refusal changes nothing |
| OnionNode.VipIsServedIff | ebpf/onion_connect.bpf.c:317-472 | As long as the index does not wrap awkwardly, a VIP is served exactly to callers its service admits, without a fault, while some listed backend is healthy and, after an enforced lease expired, local |
| OnionNode.SentToUsable | ebpf/onion_connect.bpf.c:422-472 | An accepted connect goes to a listed, usable backend of its VIP, for every sound way of picking |
| OnionNode.EntriesStayValid | ebpf/onion_connect.bpf.c:422-472 | Every run of connects, clock ticks and map updates keeps the entries well-formed |
| OnionNode.LapsedUntilRenewed | ebpf/onion_connect.bpf.c:340-354 | A lapsed lease stays lapsed in every run in which nobody renews it |
| OnionNode.LapsedServesOnlyLocally | ebpf/onion_connect.bpf.c:340-354 | From the expiry of an enforced lease until a renewal every connect the hook rewrites goes to the address and port of a listed, healthy backend on this node, whatever the agent writes meanwhile |
| OnionNode.HookIsFair | ebpf/onion_connect.bpf.c:422-472 | With k usable backends, k connects in a row by any callers the VIP serves go to each exactly once, in cyclic order, under the condition of completeness |
| OnionNode.ServedCallerMayConnectDirectly | ebpf/onion_connect.bpf.c:157-194 | A caller sent to a backend may connect to it directly, as far as isolation goes, exactly under the stated condition |
| EgressBits.CgroupKeyInjective | ebpf/onion_connect.bpf.c:208-220 | The big-endian cgroup prefix of a trie key identifies the cgroup |
| EgressMerge.ContainsIsPrefix | src/sesame/egress.rs:181-196 | The masked comparison is prefix containment on normalised networks |
| EgressMerge.FoldIsComplete | src/sesame/egress.rs:245-255 | Folding the groups one by one gives exactly the ports of every prefix around a key |
| EgressMerge.SortDedup | src/sesame/egress.rs:256-257 | Strictly sorted, with the same members |
| EgressMerge.GroupPorts | src/sesame/egress.rs:227-241 | The groups hold each listed prefix's own ports and nothing else |
| EgressMerge.MergeCidrPorts | src/sesame/egress.rs:224-272 | Every listed prefix gets an entry with exactly the ports of all prefixes around it; merging fails exactly when one needs more than eight |
| EgressMerge.NinePortsAreTooMany | src/sesame/egress.rs:258-266 | A list with nine ports on one prefix cannot be merged |
| EgressMaps.CidrPortAllowed | ebpf/onion_connect.bpf.c:222-238 | The port loop answers whether the value lists the port |
| EgressMaps.TrieLookupIsUnion | ebpf/onion_connect.bpf.c:240-263 | After a merge is written, the one longest-prefix lookup allows a port exactly when some matching prefix of the list does |
| EgressMaps.AllowedIsUnion | ebpf/onion_connect.bpf.c:240-263 | The hook's two lookups allow an address and port exactly when the list permits them |
| EgressMaps.OtherCgroupsKeepTheirAnswers | ebpf/onion_connect.bpf.c:208-220 | Writing one cgroup's list changes no other cgroup's answers |
| EgressMaps.DropKeepsOthers | src/sesame/egress.rs:919-978 | Clearing one cgroup's entries changes no other cgroup's answers |
| EgressMaps.KernelMaps.WriteDestinations | src/sesame/egress.rs:831-903 | The maps gain exactly the exact entries and the merged prefixes |
| EgressMaps.KernelMaps.Reprogram | src/bun/agent/networking.rs:710-749 | Afterwards the cgroup may reach exactly what its list permits and every other cgroup what it could before; a list that cannot be merged changes nothing |
| Checksum.FoldChecksum | poc/dns-tc/dns_tc.bpf.c:54-59 | Two folds suffice for every 32-bit sum, and what they leave is the complement of the end-around-carry sum |
| Checksum.Ipv4Checksum | poc/dns-tc/dns_tc.bpf.c:61-73 | The loop's 32-bit sum never wraps and its result is the complement of RFC 1071's sum over the header |
| Checksum.Ipv4ChecksumVerifies | poc/dns-tc/dns_tc.bpf.c:234-238 | A header whose checksum field held zero sums to 0xffff once the checksum is stored |
| Checksum.UdpChecksum | poc/dns-tc/dns_tc.bpf.c:75-109 | Zero exactly when the program gives up, which includes odd lengths ending at the packet end; otherwise RFC 768's checksum |
| Checksum.UdpChecksumVerifies | poc/dns-tc/dns_tc.bpf.c:75-109 | A datagram verifies over the pseudo-header once its nonzero checksum is stored |
| Checksum.PseudoHeaderIs | poc/dns-tc/dns_tc.bpf.c:75-109 | The pseudo-header's sum is the word sum of its twelve bytes: both addresses, 0, 17 and the length |
| Checksum.OddByteIsPadded | poc/dns-tc/dns_tc.bpf.c:75-109 | A last odd byte counts as if a zero followed |
| Checksum.OnesSumIsOc | poc/dns-tc/dns_tc.bpf.c:54-59 | Adding words with the carry brought round is the residue of their plain sum |
| DnsName.WireCloses | poc/dns-tc/dns_tc.bpf.c:111-144 | The counter closes after the last octet of every name's wire form |
| DnsName.ClosesAtOneLength | poc/dns-tc/dns_tc.bpf.c:111-144 | It closes at no other length of the same octets |
| DnsName.ClosesIsWire | poc/dns-tc/dns_tc.bpf.c:111-144 | Octets on which the counter closes are the wire form of a name |
| DnsName.HashQname | poc/dns-tc/dns_tc.bpf.c:111-144 | Accepts exactly the uncompressed names of at most 80 octets with four octets after them, and returns their end and key |
| DnsName.NameKeyIs | poc/dns-tc/dns_tc.bpf.c:111-144 | A name's key is 32-bit FNV-1a, offset and prime written out, over its lower-case wire octets without the closing zero |
| DnsName.Fnv1aOfA | poc/dns-tc/dns_tc.bpf.c:17-18 | The reference hash gives its published test vector |
| DnsName.CaseDoesNotMatter | poc/dns-tc/dns_tc.bpf.c:49-52 | Names whose octets are the same or an ASCII letter's two cases have one key |
| DnsName.LowerIs | poc/dns-tc/dns_tc.bpf.c:49-52 | Two octets lower alike exactly when they are the same or an ASCII letter's two cases |
| DnsMessage.DecodeWireName | poc/dns-tc/dns_tc.bpf.c:111-144 | The reference decoder of section 4.1 of RFC 1035 reads a wire name back as its labels |
| DnsMessage.DecodePointer | poc/dns-tc/dns_tc.bpf.c:197-204 | A pointer resolves to the name it points at |
| DnsAnswer.Recognise | poc/dns-tc/dns_tc.bpf.c:147-188 | A packet is recognised exactly when it asks for the A record of a known name, and the question's end and the address are the right ones |
| DnsAnswer.HeadersAre | poc/dns-tc/dns_tc.bpf.c:147-184 | The header checks, byte by byte: IPv4 without options or fragments, UDP to port 53, lengths that fit, and an unanswered standard query with one question |
| DnsAnswer.Skb.Ingress | poc/dns-tc/dns_tc.bpf.c:147-244 | Every other packet passes untouched; a recognised one becomes its reply unless a helper fails, and then it is dropped |
| DnsAnswer.Skb.Rewrite | poc/dns-tc/dns_tc.bpf.c:209-240 | The stores into the extended packet make exactly the reply |
| DnsAnswer.TurnRound | poc/dns-tc/dns_tc.bpf.c:219-240 | Swapping, setting lengths and storing both checksums turns the headers round |
| DnsAnswer.ReplyDecodes | poc/dns-tc/dns_tc.bpf.c:164-243 | The reply decodes to the query's id and question and exactly one A record under the question's name with the map's address and 30 seconds to live, its flags the query's with the response and authoritative bits set, if and only if the query announced no authority records |
| DnsAnswer.SomeReplyDoesNotDecode | poc/dns-tc/dns_tc.bpf.c:164-243 | A recognised query whose reply does not decode |
| DnsAnswer.ReplyGoesBack | poc/dns-tc/dns_tc.bpf.c:209-240 | Every address pair is swapped, and the IP, UDP and packet lengths agree |
| DnsAnswer.ReplyKeeps | poc/dns-tc/dns_tc.bpf.c:209-240 | The Ethernet type and the IPv4 header's other fields stay as they were |
| DnsAnswer.ReplyVerifies | poc/dns-tc/dns_tc.bpf.c:234-240 | Both checksums verify; the datagram carries none exactly when its length is odd |
| DnsAnswer.NoChecksumIffOdd | poc/dns-tc/dns_tc.bpf.c:75-109 | The reply carries no UDP checksum if and only if the query's question ends at an odd offset |
| DnsAnswer.SomeReplyHasNoChecksum | poc/dns-tc/dns_tc.bpf.c:75-109 | A recognised query whose reply carries none |
| Rewriting.PrefixAgree | src/redact.rs:103-109 | Text that ends before a rule's trigger does stands at the front of the rewritten text exactly when it did before |
| Rewriting.StaysStable | src/redact.rs:103-109 | Rewriting keeps a text clean for another rule when it reflects that rule's hits and shields them |
| Rewriting.BecomesStable | src/redact.rs:103-109 | Rewriting leaves nothing to rewrite when copying and replacing are clean |
| RedactStability.Preserves | src/redact.rs:103-118 | No later rule creates or uncovers a secret for an earlier one |
| RedactStability.UrlReflects | src/redact.rs:226-242 | The token rule exposes no URL credentials, because it treats the text on either side of every separator on its own |
| RedactOnce.Establishes | src/redact.rs:196-242 | Each rule leaves a text in which it finds nothing |
| RedactOnce.AfterSecret | src/redact.rs:226-231 | What follows replaced credentials is the last @ of the authority |
| Passing.PassKeepsStable | src/redact.rs:276-309 | A pass that reflects another rule's hits and shields them around what it replaces keeps a text clean for that rule |
| Passing.SecondPassIsClean | src/redact.rs:283-309 | When every match after a pass is one to leave alone, a second pass changes and replaces nothing |
| RedactKeys.SecretKeysStay | src/redact.rs:258-282 | A key depends on nothing past its separator, survives whatever follows it, and grows with key characters in front |
| RedactPairs.PairsSettle | src/redact.rs:276-309 | A value left alone or replaced is left alone the next time, in each of its four shapes, and nothing else becomes one |
| RedactLast.PairsUncoverNothing | src/redact.rs:103-118 | The key-value rule creates or uncovers no encrypted value, age identity or token |
| Redact.NoShapeIsLeft | src/redact.rs:103-118 | After the four rules by shape the text holds nothing any of them recognises |
| Redact.ShapesAreIdempotent | src/redact.rs:103-118 | For every text a second pass of the four changes nothing and fires nothing |
| Redact.NothingIsLeft | src/redact.rs:103-118 | After all five rules it holds nothing that the three with a fixed prefix recognise |
| Redact.SecretsAreMarked | src/redact.rs:196-242 | In redacted text a marker follows every encrypted-value and token prefix, and no letter or digit follows an age prefix |
| RedactExtent.TokenIsReplaced | src/redact.rs:311-341 | Behind the first `rbrg_` exactly the letters, digits and underscores give way, and the rule goes on behind them; it counts one |
| RedactExtent.TokenStays | src/redact.rs:311-341 | A token replaced before is copied and not counted |
| RedactExtent.NoTokenNoChange | src/redact.rs:311-341 | A text without `rbrg_` stays as it is |
| RedactExtent.ValueIsReplaced | src/redact.rs:196-212 | Behind the first `ENC[AGE:` exactly the text up to a bracket, a quote or one of the 25 white-space characters gives way, a closing bracket with it |
| RedactExtent.ValueStays | src/redact.rs:196-212 | An encrypted value replaced before is copied and not counted |
| RedactExtent.NoValueNoChange | src/redact.rs:196-212 | A text without `ENC[AGE:` stays as it is |
| RedactExtent.IdentityIsReplaced | src/redact.rs:214-224 | Behind the first `AGE-SECRET-KEY-1` exactly the letters and digits give way, if there are any |
| RedactExtent.IdentityStays | src/redact.rs:214-224 | A prefix with neither behind it is copied and not counted |
| RedactExtent.NoIdentityNoChange | src/redact.rs:214-224 | A text without `AGE-SECRET-KEY-1` stays as it is |
| RedactExtent.CredentialsAreReplaced | src/redact.rs:226-242 | Behind the first `://` with a scheme exactly the text before the last @ of the authority gives way, the authority ending at white space, / ? or #, and the rule goes on behind the @ |
| RedactExtent.AuthorityStays | src/redact.rs:226-242 | An authority without credentials, or with a marker for them, is copied and not counted |
| RedactExtent.NoSchemeStays | src/redact.rs:226-242 | A `://` with no scheme in front of it is copied |
| RedactExtent.NoUrlNoChange | src/redact.rs:226-242 | A text without `://` stays as it is |
| RedactNamed.NamesSecretIff | src/redact.rs:258-266 | A key names a secret exactly when it ends, in any case and with the two foreign letters that fold into s and k, in one of the words |
| RedactNamed.NamedValueIsReplaced | src/redact.rs:268-309 | Behind such a key and a separator a value of each of the four shapes, its characters written out, becomes the marker between its quotes, unless it is empty or holds one, and the rule goes on behind the closing quote |
| RedactNamed.OthersStay | src/redact.rs:268-309 | A key that ends in none of the words, and one whose separator has no value behind it, as in `Token::new` and `token == other`, stay with their separator, and the rule goes on behind it |
| RedactNamed.NoPairNoChange | src/redact.rs:268-309 | A text without = and : stays as it is |
| RedactBridge.SecondPassFires | src/redact.rs:226-309 | A family of texts whose second pass fires: the password taken out held the slash that ended an authority |
| RedactOpen.OpensIff | src/redact.rs:283-309 | The authority at the front of a passed text holds an @ exactly when the authority before, read on through the values that give way, does |
| RedactOpen.ExposedIff | src/redact.rs:226-242 | The URL rule sees credentials exactly when an @ lies in the authority beyond a leading @ or marker and @ |
| RedactOpen.UncoversIff | src/redact.rs:226-309 | Credentials start at a place after the pass exactly when a scheme starts there in text left alone and what follows it exposes some |
| RedactOpen.BridgedIff | src/redact.rs:226-309 | For every text, the pass leaves URL credentials if and only if the text is bridged |
| RedactOpen.CleanIffNotBridged | src/redact.rs:110-118 | A second pass of all five rules changes and counts nothing if and only if the text the four rules by shape leave is not bridged, a condition on the key-value rule's input alone |
| RedactTame.BridgedBefore | src/redact.rs:226-309 | When no value taken out can end an authority, a text is bridged only if it held credentials already |
| RedactTame.TameIsClean | src/redact.rs:226-309 | A second pass is clean whenever no value taken out holds white space, a slash, a question mark or a hash |
| Redact.RedactionCounts.ReplaceAll | src/redact.rs:202-242 | Applying a pattern turn by turn, values already replaced being passed over whole, is the rule's rewriting and counts each secret once |
| Redact.RedactionCounts.RedactEncryptedValues | src/redact.rs:196-212 | The loop over encrypted values computes the rule |
| Redact.RedactionCounts.RedactAgeIdentities | src/redact.rs:214-224 | The loop over age identities computes the rule |
| Redact.RedactionCounts.RedactUrlCredentials | src/redact.rs:226-242 | The loop over URLs, whose match takes in the @ and writes it back, computes the rule |
| Redact.RedactionCounts.RedactTokens | src/redact.rs:311-341 | The hand-written scanner computes the rule and counts exactly the tokens not yet redacted |
| Redact.RedactionCounts.ReplaceValues | src/redact.rs:288-309 | The search for values, matches left alone being passed over whole, computes the pass and counts each value once |
| Redact.RedactionCounts.RedactSecretKeyValues | src/redact.rs:288-309 | The loop over key-value pairs computes the rule |
| Redact.RedactionCounts.RedactAll | src/redact.rs:110-118 | The five rules in order, with each one's count |
| Redact.CountsGrow | src/redact.rs:70-101 | Each rule's count grows by its own firings, and a rule has an entry exactly if it ever fired |
| Retention.Destination.Prune | scripts/release/soak_export_retention.py:26-63 | The loop removes exactly the expired exports, in listing order, and rewrites the state and verified files accordingly; a missing directory changes nothing |
| Retention.OriginalIs | scripts/release/soak_export_retention.py:45-45 | An export named node/digest-source was made from that source |
| Retention.PruneDecides | scripts/release/soak_export_retention.py:43-62 | A prune deletes and unlists exactly the verified exports whose source is missing and was first missed at least the keep time ago, and remembers the others without a source with that time |
| Retention.StateIsFirstSeen | scripts/release/soak_export_retention.py:43-54 | The state file's time for an export is that of the first prune of the unbroken stretch in which it had no source |
| Retention.RemovedIffLongGone | scripts/release/soak_export_retention.py:26-63 | A prune removes exactly the verified files that every prune over at least the keep time found without a source |
| Retention.LossOnlyDelays | scripts/release/soak_export_retention.py:39-42 | A run that loses the state file more often removes a file no earlier than one that does not |
| Failover.Controller.Reconcile | examples/controller/main.rs:402-418 | One check with any of its calls failing, before or after taking effect, does exactly what the transition says to the cluster and the count |
| Failover.EveryAppIsOwned | examples/controller/main.rs:140-193 | From an empty cluster, whatever fails, every app of the pair belongs to the controller |
| Failover.OnceOneAlwaysOne | examples/controller/main.rs:402-418 | Whatever fails, once one app exists one always does |
| Failover.WriteLeavesExactlyOne | examples/controller/main.rs:402-418 | A write that completes leaves exactly the app it chose |
| Failover.NeverTradesARunningApp | examples/controller/main.rs:163-172 | In every run a completed write never leaves an app that runs for one that does not |
| Failover.ForeignAppsAreLeftAlone | examples/controller/main.rs:140-149 | In any cluster, an app someone else owns stops the controller from touching either |
| Failover.OneCheckLeaves | examples/controller/main.rs:140-193 | In any cluster without a foreign app, what one check in which nothing fails leaves of both apps and of the count, a sole app nobody owns being claimed |
| Failover.FailedCallsLeave | examples/controller/main.rs:402-418 | A failed read, apply or delete leaves both apps as they were or as the call was to make them, by whether it took effect |
| Failover.FailoverIsEarnedIff | examples/controller/main.rs:140-193 | Whatever calls fail: a failover follows `threshold` checks in a row, and one at least, that saw the app down, if and only if no untold delete left that app fewer seen checks ago |
| Failover.FailsOverIffDown | examples/controller/main.rs:140-193 | When no call fails the controller fails over exactly when the last `threshold` checks, and one at least, all saw the app down |
| Failover.UntoldDeleteFailsOverEarly | examples/controller/main.rs:408-416 | A run in which a delete reported as failed makes the controller abandon the next app after one check |
| Failover.UntoldDeleteHarmsIff | examples/controller/main.rs:402-418 | After an untold delete some later run abandons the remaining app unearned if and only if the threshold is at least two and the count is neither zero nor at its limit |
| CoverageOwner.Controller.Receive | scripts/ci/coverage_owner.py:124-131 | A message raises at most one error on record and otherwise does what the transition says |
| CoverageOwner.RefusalsAreRecorded | scripts/ci/coverage_owner.py:124-131 | In every run the errors on record are the messages refused |
| CoverageOwner.Controller.Admit | scripts/ci/coverage_owner.py:133-230 | The branches of one message, including the log entry written before the handshake check |
| CoverageOwner.ApprovedIsNext | scripts/ci/coverage_owner.py:133-230 | Without an error on record exactly the recipe's next message is approved: the next start with its arguments and unchanged tools, the handshake inside the second stage, or the finish of the running stage; which exceptions escape is as exact |
| CoverageOwner.RunTells | scripts/ci/coverage_owner.py:133-230 | As long as no error is on record the state tells exactly what happened |
| CoverageOwner.TakenFits | scripts/ci/coverage_owner.py:133-230 | The messages that had an effect match the events one by one, by nonce, arguments, index and exit code |
| CoverageOwner.SettledIsTheRecipe | scripts/ci/coverage_owner.py:133-230 | A settled controller has seen exactly that recipe, whatever the exit codes |
| CoverageOwner.AcceptedIsTheRecipe | scripts/ci/coverage_owner.py:483-497 | For every sequence of messages, a run the owner accepts ran exactly the five recipe commands in order without overlap, each exiting with 0, with one handshake inside the instrumented stage, brought about by eleven messages with the owner's nonce and each stage's own arguments |
| CoverageOwner.MakeSucceedsIff | scripts/ci/coverage_adapter.py:48-53 | The recipe run as written, stopping at the first stage that fails, ends with 0 exactly when every stage it reaches runs clean |
| CoverageOwner.HonestRunIsAcceptedIff | scripts/ci/coverage_contract.py:325-371 | The recipe run as written is accepted if and only if the tools are unchanged, the handshake's context fits, its files were saved, every exit code is 0 and the evidence is there |
| FetchArtifact.Transfer.Attempt | scripts/ci/fetch_artifact.py:96-127 | Whatever the store serves and wherever it breaks off, the file is what was kept plus what arrived; the attempt finishes exactly when the recorded size is there and the end of the body came before any break |
| FetchArtifact.ArrivedIs | scripts/ci/fetch_artifact.py:110-121 | As many bytes arrive as the pieces bring, and no more than the body has |
| FetchArtifact.Transfer.Fetch | scripts/ci/fetch_artifact.py:173-199 | The retry loop ends with the file the run produces, checks size and digest, and leaves no partial file behind |
| FetchArtifact.AttemptKeepsPrefix | scripts/ci/fetch_artifact.py:96-127 | A prefix of the blob stays a prefix, and a served range never shortens it |
| FetchArtifact.AlwaysPrefix | scripts/ci/fetch_artifact.py:96-127 | After every attempt of every run the partial file is a prefix of the blob |
| FetchArtifact.OnlyTheBlobIsExtracted | scripts/ci/fetch_artifact.py:173-197 | Extraction gets exactly the blob's first recorded-size bytes with the recorded digest, hence the whole blob when that is its length |
| FetchArtifact.CompletesLater | scripts/ci/fetch_artifact.py:173-191 | Whatever failed before, one uninterrupted attempt ends the run with the whole blob |
| FetchArtifact.FailuresKeepTheFile | scripts/ci/fetch_artifact.py:183-191 | Attempts that fail before the store answers cost none of the bytes fetched so far |
| FetchArtifact.CompletedIsExtracted | scripts/ci/fetch_artifact.py:173-197 | Then extraction gets the whole blob, unless a recorded digest differs or there was nothing to fetch and no file |
| WorkloadPids.Workload | scripts/demo/resources.py:144-160 | The worklist ends on every table, cyclic ones included, with exactly the table's processes reachable from Bun or a marked process along child edges avoiding the sampler, minus Bun |
| WorkloadPids.PathIs | scripts/demo/resources.py:144-160 | The paths in the table's own terms: from Bun or a process whose command holds a marker, along parents, avoiding the sampler |
| WorkloadPids.MentionsIff | scripts/demo/resources.py:149-149 | A command names the marker exactly when it is text, marker, text |
| WorkloadPids.Children | scripts/demo/resources.py:146-148 | The child lists hold exactly the child edges |
| WorkloadPids.ClosedHoldsReachable | scripts/demo/resources.py:144-160 | A set closed under roots and child edges holds everything reachable |

## Left out

- Raft, gossip, scheduling, task arrays, policy and the registry: the core of these is not part of this model.
- Redact.RedactionCounts.RedactAll: the PEM and JWT rules are not modelled; their patterns look behind the match or lazily ahead.
- RedactOpen.CleanIffNotBridged: speaks of the five rules modelled, without the PEM and JWT rules between them.
- RedactBridge.SecondPassFires: as above; its texts hold nothing those two rules look for.
- RedactTame.TameIsClean: one direction, a simple case of RedactOpen.CleanIffNotBridged, which is exact.
- Redact.SecretsAreMarked: for age identities only that no letter or digit follows, since a bare prefix is left as it is.
- RedactNamed.OthersStay: with no key at all, the text in front may not end in a backslash, a quote or a blank.
- OnionNode.VipIsServedIff: for indices that do not wrap awkwardly; OnionNode.AcceptedIff covers the others through the scan.
- Unicode beyond the White_Space property and the two letters that fold into ASCII: text is a sequence of characters.
- Fault injection in the connect hook: one early refusal, chosen by the environment.
- Concurrent, non-atomic updates of `rr_index` on several CPUs: connects are sequential.
- FileLocking.Host.LockRoute: gives up when its rounds end, where the source goes on until it wins or errs; creating the directory is left out.
- EgressMaps.KernelMaps.Reprogram: does not model a map write that fails halfway, the enforcement flag, or a cgroup without survivors, whose state is deleted as a whole.
- EgressMerge.MergeCidrPorts: speaks of networks without host bits, which parsing refuses before a merge.
- OnionHooks.DestinationEntries: services of the view and of the catalogue come as one list, names already parsed.
- DurableRead.ReadBounded: I/O errors of the read itself and appended-to files that shrink are not modelled.
- DnsAnswer.Skb.Ingress: the redirect to the interface is an outcome, not an effect.
- Retention.Destination.Prune: the listing is given sorted; a prune that stops halfway is not modelled.
- Failover.Controller.Reconcile: manifests, names and reasons are left out; a call's effect has happened by the time it returns.
- CoverageOwner.Controller.Admit: the environment checks of a handshake and the digests of the tools are outcomes given with the message.
- FetchArtifact.Transfer.Fetch: unpacking the zip and pauses are left out; the digest is any function.
- FetchArtifact.AlwaysPrefix: starts from no file or a prefix; a leftover of another artefact is caught by the digest only.
- WorkloadPids.Workload: reading the process table and parsing it are left out.
- HTTP clients, object storage, build scripts, compatibility stamps and the remaining CI and demo scripts: input, output and single-branch checks.
