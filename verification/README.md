# voidGate, modelled and proved in Dafny

voidGate is a drop gate for one Linux VM.  A daemon decides which prefixes are dropped and
writes them to kernel prefix maps; an XDP program reads raw frames and enforces what the
maps hold.  The two halves only work if they agree, also while kernel writes fail and while
a reload replaces the maps under live traffic.  This project models both halves and proves
what they promise together: `dafny verify dfyconfig.toml` checks all of it.

## How it is put together

- `Cidr.dfy` gives every prefix its set of addresses and says which set fact each byte
  computation decides.
- `Lists.dfy` has the intrusive circular list and hash list; `DropTable.dfy` the record pool
  threaded through them; `SnapTable.dfy` the pool of rate snapshots.  Addresses of records
  are pool slots; the methods write one cell after the other in place, and each operation is
  specified by the sequence or map it stands for.
- `KernelState.dfy` and `Kernel.dfy` are the kernel maps.  Every write may fail without
  effect.  A log keeps each state the XDP program could have met, and failed writes are
  counted.
- `GateModel.dfy` is the gate as a state machine.  An event carries all that the code reads
  from outside and the outcome of every kernel write.  `GateSafety.dfy`, `Mirror.dfy`,
  `Lifetimes.dfy`, `Quiet.dfy`, `Widening.dfy` and `Rates.dfy` prove what its events do and
  what holds over all its runs.
- `Controller.dfy` is the daemon's code over the stored structures.  Each method takes
  exactly one step of the machine.  For every input, command or tick, that step is the
  event the input asks for: same prefix, reason, configuration, clocks, and one visit per
  remote read.  It reports a failed write only if a kernel write failed.  So the theorems
  about runs hold of the code, in terms of what the daemon is asked.
- `Datapath.dfy` and `Xdp.dfy` are the XDP program as a function of an arbitrary byte
  sequence, with its counters.  `Frames.dfy` builds frames from their parts and proves what
  the program reads back and decides.  `EndToEnd.dfy` joins both halves.
- `ControlLine.dfy` is the control-line reader and the number parsers, `PoolSize.dfy` the
  sizing of the pool and its buckets in 32-bit arithmetic.

C doubles are modelled as reals and clock readings, metrics and walked counters are inputs.

## What the code does against its own prose

- `src/ipaddr.c:14-17` says a prefix length has one to three digits.  Leading zeros are
  read and change nothing (`ControlLine.LeadingZeros`), so `0024` is accepted as 24.  What
  is accepted exactly is `ControlLine.ParseCidr`: a text of fewer than 128 bytes with
  digits of value at most the family's width after the slash.
- `docs/install.html:90` says `passed` stays at zero while idle.  The idle path counts every
  frame as passed (`src/bpf/voidgate.bpf.c:494-496`, `Xdp.IdleFramesPass`), and the
  conservation law needs it.
- `src/policy.c:171-173` promises one record per possible map entry.  The doubled size is
  computed in 32 bits: the promise holds exactly for sizes below 2^31
  (`PoolSize.PoolIsBigEnough`), and the bucket-doubling loop ends exactly for pools of at
  most 2^31 records (`PoolSize.DoublingEnds`); `PoolSize.LargeSizesFail` has a size for each.
- `src/ctl_server.c:305-308` prunes the list so that no drop covers a new local address.
  That is enough exactly when every live drop that overlaps a prefix live afterwards is
  listed, protected by the new configuration, and its delete works
  (`Mirror.ReloadIsSafeExactly`, for any outcome of the reload's writes).  A prefix whose
  delete failed in a disarm's flush is no longer listed, and no reload lifts it:
  `Mirror.StrayDropOutlivesReload` is the run.
- A truncated walk is meant to keep every snapshot (`src/policy.c:97-99`).  The one walk
  whose 32-bit generation wraps to zero starts from an empty table instead.  No entry is
  lost exactly when the generation does not wrap or the walk admits every remote anew
  (`Rates.TruncatedLosesNothingExactly`); `Rates.WrapLosesEntry` is a run that loses one.

## Model

| member | source | states |
|---|---|---|
| Cidrs.MaskInPlace | src/ipaddr.c:86-112 | the byte loop clears exactly the bits from the prefix length on and keeps the others |
| Cidrs.BitsEqualMeaning | src/ipaddr.c:115-134 | whole bytes plus one masked byte are equal exactly when the leading bits are |
| Cidrs.ContainsIsInclusion | src/ipaddr.c:137-150 | the containment test is inclusion of address sets, both directions, both families, every length |
| Cidrs.OverlapIsIntersection | src/ipaddr.c:153-158 | the overlap test is true exactly when the prefixes share an address |
| Cidrs.NestedOrDisjoint | src/ipaddr.c:153-158 | two prefixes are nested or have no address in common |
| Cidrs.MaskKeepsAddresses | src/ipaddr.c:86-112 | masking keeps the address set and is idempotent |
| Cidrs.CanonicalIsUnique | src/ipaddr.c:86-112 | masked prefixes are equal exactly when their address sets are, so bytes can serve as keys |
| Cidrs.WidenContains | src/ipaddr.c:175-202 | the /24 or /64 around a prefix is masked and holds all its addresses |
| Cidrs.CoversMeaning | src/bpf/voidgate.bpf.c:194-215 | a full-length prefix-map lookup hits a key exactly when the address is in its set |
| Cidrs.HostIsOneAddress | src/policy.c:625-628 | the host prefix of a remote is that one address |
| Lists.ListInit | src/list.h:46-51 | leaves an empty circular list |
| Lists.ListAddTail | src/list.h:61-68 | the four writes are the append of the list memory |
| Lists.ListDel | src/list.h:71-78 | the writes are the unlink of the list memory |
| Lists.AddTailRing | src/list.h:61-68 | appending puts the node last, with every prev and next link agreeing |
| Lists.UnlinkRing | src/list.h:71-78 | unlinking any node of a list leaves the list without it, all links agreeing |
| Lists.UnlinkOutside | src/list.h:71-78 | unlinking writes no cell outside its own list |
| Lists.HListAddHead | src/list.h:81-92 | the writes are the push on the bucket memory |
| Lists.HListDel | src/list.h:95-106 | the writes through pprev are the unlink of the bucket memory |
| Lists.AddHeadChain | src/list.h:81-92 | pushing puts the node first in its bucket, every pprev pointing back |
| Lists.DelChain | src/list.h:95-106 | unlinking through pprev, with no bucket known, leaves the chain without the node, every pprev pointing back |
| Lists.OtherChain | src/list.h:81-106 | neither touches any other bucket |
| DropTables.DropTable.constructor | src/policy.c:162-195 | starts as an empty, consistent table |
| DropTables.DropTable.Find | src/policy.c:258-277 | the bucket walk returns exactly the record that a scan of the whole list finds, or none |
| DropTables.DropTable.Alloc | src/policy.c:280-299 | hands out a record that is on neither list, and none exactly when all are listed |
| DropTables.DropTable.Insert | src/policy.c:382-388 | the new drop is last on the list and indexed; lists, buckets, links and count stay consistent |
| DropTables.DropTable.Release | src/policy.c:376-380 | an unused record goes back to the pool, the list unchanged |
| DropTables.DropTable.Remove | src/policy.c:330-335 | exactly that record leaves list and index, the order of the rest kept, the record kept for reuse |
| DropTables.DropTable.Rewrite | src/policy.c:397-415 | an in-place change keeps place, prefix and consistency |
| DropTables.DropTable.Reset | src/policy.c:302-311 | forgets every record at once and is consistent |
| DropTables.RemoveKeeps | src/policy.c:319-336 | on values: after a removal both lists, all buckets and the partition of the pool hold, and no prefix is listed twice |
| DropTables.InsertKeeps | src/policy.c:382-388 | on values: the same after an insertion |
| DropTables.AllocKeeps | src/policy.c:280-299 | on values: the same after handing a record out; all records are listed exactly when none is lifted or unused |
| SnapTables.SnapTable.constructor | src/policy.c:197-209 | starts empty with the whole pool free |
| SnapTables.SnapTable.Reset | src/policy.c:65-94 | empties the table and gives the whole pool back |
| SnapTables.SnapTable.Seek | src/policy.c:134-139 | the bucket walk finds exactly the entry of the remote, or none |
| SnapTables.SnapTable.Get | src/policy.c:125-159 | the remote's entry, marked current; a zeroed new one; or none exactly when it is new and the pool is used up |
| SnapTables.SnapTable.Put | src/policy.c:599-608 | stores the counters of that remote only |
| SnapTables.SnapTable.Unchain | src/policy.c:108-116 | the writes through the link cell, at the head of the bucket or within it |
| SnapTables.SnapTable.PruneBucket | src/policy.c:105-121 | drops from one bucket exactly stale entries, and leaves only current ones in it |
| SnapTables.SnapTable.Prune | src/policy.c:97-122 | keeps exactly the entries marked in this generation |
| SnapTables.UnchainKeeps | src/policy.c:108-116 | on values: after unlinking anywhere in a chain, buckets and free list split the pool with one entry per remote |
| SnapTables.TakeKeeps | src/policy.c:141-158 | on values: the same after taking a free entry |
| Kernels.FillCfg | src/maps.c:307-321 | the slot loop fills the entry of the configuration, count cut to eight and unused slots zero |
| Kernels.Kernel.Commit | src/maps.c:300-326 | replaces the armed flag and the ports, or fails without effect; like every write it is logged, and counted if it failed |
| Kernels.Kernel.DropAdd | src/maps.c:418-427 | sets the entry, or fails without effect; fails when the key is new and its map full |
| Kernels.Kernel.Delete | src/maps.c:399-415 | removes the key, reports it missing, or fails without effect |
| Kernels.Kernel.FlushLpm | src/maps.c:440-468 | after looking each next key up first, exactly the keys whose delete failed are left, none if no write failed, and every state on the way only lost keys |
| Kernels.Kernel.Populate | src/maps.c:481-530 | old keys that would not go plus configured keys that were accepted; every state on the way holds only old and configured keys |
| Controllers.IsProtected | src/config.c:461-480 | true exactly when the prefix shares an address with a configured local or allowed prefix |
| Controllers.Ctrl.Arm | src/policy.c:504-523 | is the arm step: snapshots and quiet timer cleared, state and kernel flag change together or not at all; the commit fails only if a write did |
| Controllers.Ctrl.Disarm | src/policy.c:526-542 | is the disarm step, flush failures included |
| Controllers.Ctrl.AddDrop | src/policy.c:344-430 | is the drop step on the stored list, with every refusal, failure and merge rule |
| Controllers.Ctrl.MergeTimed | src/policy.c:397-404 | a timed drop of a listed record keeps the later of the asked time and the time the record would have lifted |
| Controllers.Ctrl.Remove | src/policy.c:314-336 | kernel first; a missing key counts as deleted, a failed delete keeps the record |
| Controllers.Ctrl.Undrop | src/policy.c:447-469 | is the undrop step, clearing a stray kernel entry too |
| Controllers.Ctrl.SweepList | src/policy.c:689-728 | the safe walk that unlinks while walking is the sweep step: exactly the doomed records whose delete worked are gone |
| Controllers.Ctrl.CountInside | src/policy.c:564-573 | the walk counts the listed, non-timed prefixes inside the net |
| Controllers.Ctrl.MaybeAggregate | src/policy.c:545-580 | is the widening step |
| Controllers.Ctrl.OneRemote | src/policy.c:583-636 | is the visit step: snapshot, threshold, drop, widening |
| Controllers.Ctrl.ForeachFamily | src/maps.c:233-270 | visits in map order exactly the keys within the budget whose counters can be read; failed without a descriptor, complete exactly when no key is left over |
| Controllers.Ctrl.WalkRemotes | src/policy.c:654-683 | is the walk step over exactly the remotes reported, generation wrap-around, failed, truncated and complete walks included |
| Controllers.Ctrl.Tick | src/policy.c:756-850 | is the tick step of its readings: same clocks and metrics, one visit for each remote the budget reaches, complete exactly when both maps were walked to the end |
| Controllers.Ctrl.Reload | src/ctl_server.c:303-322 | is the reload step, and no map state at any point of it lets a drop overlap a live local or allow prefix, given it held before, list and maps agreed and the prune deletes work; inserts, flushes and the commit may fail |
| Controllers.Ctrl.Handle | src/voidgate.c:459-490 | each control command or tick is the event it asks for; the event reports a failed write only if one failed; in a settled state no map state on the way of a clean event lets a drop overlap a live local or allow prefix |
| Controllers.Ctrl.Serve | src/voidgate.c:423-491 | whatever comes in and fails, the stored state follows the run the inputs ask for and keeps its invariant; without kernel failures the run is clean; in a clean run every map state the XDP program can meet lets frames to live local addresses from sources outside the live drops pass |
| Controllers.BanOutlivesInputs | src/policy.c:689-728 | the lifetime theorem in terms of the inputs: no undrop, disarm, protecting reload or late tick asked for, so the drop is still listed, whatever failed |
| Controllers.DistinctKeysDistinctVisits | src/maps.c:233-270 | distinct keys of the two remote maps are visited at most once each in a tick |
| Controllers.WalkReportsExactly | src/maps.c:233-297 | a complete walk reports exactly the keys whose counters can be read |
| GateSafety.StepKeepsInv | src/policy.c:314-850 | every event keeps the invariant of list, kernel maps, flag and pools |
| GateSafety.RunKeepsInv | src/policy.c:314-850 | so does every run, with failures anywhere |
| GateSafety.EveryReachableState | src/policy.c:360-362 | in every reachable state no prefix is listed twice, listed prefixes are in the kernel map, sizes hold, the armed flag is the state, and only an active gate lists anything |
| GateSafety.OneRecordPerAddressSet | src/ipaddr.c:86-112 | as prefixes arrive masked, no run lists two records with the same address set |
| Mirror.RunKeepsExact | src/policy.c:526-542 | if flush deletes work, list and kernel drop maps hold the same prefixes in every run, all other adds and deletes failing at will |
| Mirror.RunKeepsSettled | src/policy.c:355-358 | in runs whose deletes and reload commits work, no live drop overlaps a configured or live local or allow prefix |
| Mirror.ReloadIsSafeExactly | src/ctl_server.c:303-318 | for any outcome of its deletes, commit and refills, a reload ends with drops and live prefixes disjoint exactly when every live drop that overlaps a prefix live afterwards is listed, newly protected, and its delete works |
| Mirror.WorkingReloadIsSafeExactly | src/ctl_server.c:303-318 | with commit and refills working: exactly when every live drop that the new configuration protects is listed and its delete works |
| Mirror.StrayDropOutlivesReload | src/policy.c:526-542 | the failing case as a run from start-up: drop, disarm with that delete failing, reload with the prefix local |
| Mirror.PoolNeverRefusesFirst | src/policy.c:280-299 | the pool is used up only when both drop maps are full, so the kernel would refuse the prefix too |
| PoolSize.PoolIsBigEnough | src/policy.c:171-176 | the pool has two records per map entry exactly for sizes below 2^31 |
| PoolSize.DoublingEnds | src/policy.c:177-181 | the doubling loop ends exactly for pools of at most 2^31 records |
| PoolSize.LargeSizesFail | src/policy.c:171-181 | sizes at which the pool comes out empty, and at which the loop never ends |
| PoolSize.BucketCount | src/policy.c:177-181 | the result is the smallest power of two that is at least 1024 and at least the pool |
| Lifetimes.RedropNeverShortens | src/policy.c:390-416 | dropping again, any prefix with any reason, ttl and outcome, never unlists a drop nor brings its lift time forward, reckoned with the current or any shorter ban_time |
| Lifetimes.AcceptedDropHolds | src/policy.c:339-430 | the record an accepted drop leaves, exactly: as asked when new; manual when manual; timed to the later of the two lift times; unchanged by policy repeats and by a timed drop of a manual one.  The kernel entry is of this drop, every other record and entry stays; a refused or failed drop changes no lift time and no drop map |
| Lifetimes.DropAcceptedExactly | src/policy.c:355-415 | when a drop is accepted: not protected, armed or arming works, and listed or room for it, with the write working; a protected prefix changes nothing |
| Lifetimes.UndropLifts | src/policy.c:447-469 | accepted exactly when the delete works: unlisted and out of the kernel map; otherwise nothing changed |
| Lifetimes.DueIsLiftTime | src/policy.c:701-704 | the expiry test is exactly that the lift time has come |
| Lifetimes.SweepIsExact | src/policy.c:698-721 | each record is visited once; the survivors keep their order and everything else was doomed and deleted |
| Lifetimes.BanOutlivesRun | src/policy.c:689-728 | over every run, ban_time changing freely, a drop stays and never lifts earlier unless undropped, disarmed, protected by a reload, or due; a policy drop's lift time is reckoned with a lower bound of ban_time, others need none |
| Lifetimes.DropEndsOnlyBy | src/policy.c:689-728 | whatever event of a run unlists a drop is an undrop of it, a disarm, a reload that protects it, or an expiry pass past its lift time under the ban_time of that moment |
| Lifetimes.TickLiftsDue | src/policy.c:825-827 | after an evaluated tick of an active gate nothing due is listed, except where its delete failed, and what was lifted is out of the drop maps |
| Lifetimes.DueDropIsGone | src/policy.c:689-728 | over every run, a drop that is due at an evaluated tick whose delete works is neither listed nor in the drop maps after it |
| Quiet.EvaluatedMeans | src/policy.c:756-776 | a tick is evaluated exactly when metrics were read and the clock moved on, over the difference of the two clocks |
| Quiet.MeterFollows | src/policy.c:786-805 | after every tick its clock and metrics are the last ones; a tick that is not evaluated changes nothing else |
| Quiet.MeterStays | src/policy.c:786-805 | no event but a tick touches clock, metrics or rates |
| Quiet.ArmEnds | src/policy.c:504-523 | what an arm leaves: active, armed, no snapshots, no quiet timer, or as idle as it was |
| Quiet.DisarmEnds | src/policy.c:526-542 | what a disarm leaves: nothing listed, exactly the keys whose delete failed, and idle and not armed exactly if the commit works |
| Quiet.TickDisarmsExactly | src/policy.c:832-847 | an active gate's tick takes it idle exactly when evaluated, below both wake rates, nothing is left listed, clear_seconds have passed, and the commit works |
| Quiet.TimerExactly | src/policy.c:832-847 | while active, the quiet timer runs from the first quiet tick and any other tick stops it |
| Quiet.DisarmsOnlyAfterQuiet | src/policy.c:825-847 | the gate goes idle by itself only with nothing listed, after an unbroken spell, of at least clear_seconds, of evaluated ticks with fewer packets and bits since the last reading than the wake rates allow |
| Quiet.TimerOpensSpell | src/policy.c:835-847 | a set quiet timer is the time of the tick that opened the current spell |
| Quiet.WakesExactlyOnFlood | src/policy.c:792-823 | an idle gate wakes exactly when the packets or bits since the last reading exceed the wake rate over the interval and arming works |
| Rates.PolicyDropIsJustified | src/policy.c:583-636 | over every run, a policy drop follows an earlier visit since the last arm, and the difference of the counters since then is at least threshold times interval |
| Rates.FloodIsDropped | src/policy.c:617-636 | such a difference does list the host, and the net around it when dense, unless protected, full or failed |
| Rates.SteadyRemoteIsLeftAlone | src/policy.c:605-623 | a remote whose counters have not moved is never dropped while the thresholds are positive |
| Rates.FirstWalkDropsNothing | src/policy.c:504-523 | the first walk after an arm drops nothing, whatever counters are left over |
| Rates.NothingCurrentAtStart | src/policy.c:665-670 | no entry looks current before it is visited, generation wrap-around included |
| Rates.WalkKeepsOrForgets | src/policy.c:654-683 | the remotes with an entry after a walk, exactly: truncated, those it started with and admitted; complete, those of them it visited, which is all it visited while the pool has room |
| Rates.TruncatedLosesNothingExactly | src/policy.c:665-683 | a truncated walk loses no entry exactly when its generation does not wrap or it admits every remote anew; with room that is visiting them all |
| Rates.WrapLosesEntry | src/policy.c:665-670 | a run from start-up whose next, truncated walk forgets a remote |
| Widening.WideningIgnoresTimed | src/policy.c:564-573 | gates whose lists differ only in timed bans add the same net or both none |
| Widening.WidensExactly | src/policy.c:545-580 | the list after a widening, exactly: the net is added when aggregate_k distinct listed non-timed prefixes have all their addresses in it and it is new and taken; a sparse net changes nothing |
| Widening.VisitListsOnly | src/policy.c:583-636 | a visit keeps every record and adds at most the host, as a policy drop, and the net, as an aggregate drop to a list dense enough |
| Widening.DropsExactly | src/policy.c:339-430 | the list after a policy or aggregate drop, exactly |
| Widening.NetHoldsHost | src/ipaddr.c:175-202 | the net is a masked /24 or /64 around the host |
| Datapath.WalkExt | src/bpf/voidgate.bpf.c:386-446 | the unrolled loop is the bounded reading of the chain; a truncated chain leaves cursor and protocol alone |
| Datapath.BoundedWalkAgrees | src/bpf/voidgate.bpf.c:397-446 | up to eight headers it agrees with the unbounded reading, never moves back or past the frame, and a longer chain ends on no transport |
| Datapath.CheckPort | src/bpf/voidgate.bpf.c:170-191 | true exactly when a slot in use holds the port |
| Datapath.SeenIsTransportOrNothing | src/bpf/voidgate.bpf.c:533-576 | the program holds the transport that the bytes of the frame show, or no ports and no type |
| Datapath.LaterFragmentHasNoPorts | src/bpf/voidgate.bpf.c:542-560 | nonzero offset bytes mean no ports, whatever the payload looks like |
| Datapath.FragmentHeaderStops | src/bpf/voidgate.bpf.c:403-420 | an IPv6 fragment header ends the chain exactly when its offset bytes are not zero |
| Datapath.BadExactly | src/bpf/voidgate.bpf.c:544-560 | which judged frames count as parse errors: bad IPv4 header length, a chain cut off within eight headers, or a cut off transport header |
| Datapath.ExemptsOnlyRightly | src/bpf/voidgate.bpf.c:614-663 | without a trustworthy transport no frame gains a TCP, DHCP or NDP exemption, as long as port zero is not allowed |
| Datapath.CommitKeepsNonZero | src/maps.c:311-321 | committing a port list without zero leaves no zero in a slot in use |
| Datapath.CommitKeepsPorts | src/maps.c:311-321 | after a commit the port test accepts exactly the configured ports |
| Xdp.DropExactly | src/bpf/voidgate.bpf.c:471-691 | a drop exactly when armed, addresses readable, not rightly exempt, and a drop prefix contains an address |
| Xdp.FramesAreConserved | src/bpf/voidgate.bpf.c:449-468 | over any traffic every counter is the number it stands for: frames, bytes, dropped, not IP, faulty; received frames are passed, dropped or too short |
| Xdp.IdleFramesPass | src/bpf/voidgate.bpf.c:487-496 | over traffic that meets an idle gate every frame counts as passed and no other verdict counter moves |
| Xdp.DisjointIsReachable | src/bpf/voidgate.bpf.c:562-594 | where no live drop overlaps a live local prefix, frames to local addresses pass unless a live drop contains their source |
| Xdp.CountFrame | src/bpf/voidgate.bpf.c:231-258 | one packet and its bytes for that host, every other entry unchanged, or a failed insert; only a new entry of an LRU table may push others out |
| Xdp.Program.Decide | src/bpf/voidgate.bpf.c:562-594 | the verdict, one counter, and the traffic tables of a local destination; a dropped frame changes no host or remote counter |
| Xdp.Program.StripVlans | src/bpf/voidgate.bpf.c:498-522 | the payload behind at most two tags |
| Xdp.Program.ReadL4 | src/bpf/voidgate.bpf.c:335-383 | ports or type of a whole header, zeros and an error for a cut off one |
| Xdp.Program.See4 | src/bpf/voidgate.bpf.c:533-560 | the transport the IPv4 path works with |
| Xdp.Program.See6 | src/bpf/voidgate.bpf.c:609-630 | the transport the IPv6 path works with |
| Xdp.Program.Run | src/bpf/voidgate.bpf.c:471-691 | verdict, metrics and traffic tables for every byte sequence |
| Frames.ChainReadsBack | src/bpf/voidgate.bpf.c:397-440 | any chain of well-formed extension headers reads back: length, end and transport |
| Frames.ChainEndsInFragment | src/bpf/voidgate.bpf.c:403-420 | a later fragment behind any chain ends it without a transport |
| Frames.EthernetReadsBack | src/bpf/voidgate.bpf.c:498-522 | up to two tags of either kind are skipped |
| Frames.ThirdTagPasses | src/bpf/voidgate.bpf.c:498-530 | behind a third tag nothing is read and the frame passes as not IP |
| Frames.Ip4ReadsBack | src/bpf/voidgate.bpf.c:533-560 | addresses, protocol and ports of an IPv4 frame read back, with any options and flags; a later fragment shows no ports |
| Frames.Ip6ReadsBack | src/bpf/voidgate.bpf.c:605-630 | addresses, hop limit and transport of an IPv6 frame read back through its chain |
| Frames.Frame4Verdict | src/bpf/voidgate.bpf.c:562-594 | which IPv4 frames, with any options, flags and payload, pass a drop list: services of the VM, and DHCP between the right ports to the VM or to everyone; a later fragment never |
| Frames.Frame6Verdict | src/bpf/voidgate.bpf.c:632-683 | which IPv6 frames do: link scope, neighbour discovery with hop limit 255, services, DHCPv6 to the VM |
| Frames.Ip6ShowsNothing | src/bpf/voidgate.bpf.c:386-446 | a later fragment behind any chain, or a chain of more than eight headers, shows no ports, no type and no error |
| Frames.Frame6BlindVerdict | src/bpf/voidgate.bpf.c:632-683 | such a frame passes a drop list by link scope only |
| Frames.LinkScopeIsTwoPrefixes | src/bpf/voidgate.bpf.c:218-229 | the link-scope test is membership in fe80::/10 or ff02::/16 |
| EndToEnd.RunStaysSound | src/maps.c:300-326 | if flush deletes work, list and kernel stay equal and no zero port is ever live, whatever else fails |
| EndToEnd.CleanRunStaysSound | src/maps.c:300-326 | in clean runs the live armed flag and ports are those of the mode and the current configuration, and the gate stays settled |
| EndToEnd.VerdictFollowsList | src/bpf/voidgate.bpf.c:562-594 | after every run whose flush deletes work, for every byte sequence: dropped exactly when active, readable, not exempt, and a listed record contains an address |
| EndToEnd.VmStaysReachable | src/policy.c:472-476 | after every clean run a frame to a local address from an unlisted source passes, and so does any frame with an allowed end |
| EndToEnd.ServicesStayOpen | src/bpf/voidgate.bpf.c:295-314 | after every clean run, whatever is listed, TCP with a configured port at its local end passes |
| ControlLine.ReadRequest | src/ctl_server.c:412-460 | the request depends on the byte stream only, not on how reads split or are interrupted, and the index stays in the buffer |
| ControlLine.CommandShape | src/ctl_server.c:440-460 | a command is a prefix of the stream of at most 254 bytes without newline or NUL |
| ControlLine.CommandGetsThrough | src/ctl_server.c:412-460 | every such line is received as that command, ended by a newline or by the end of the stream |
| ControlLine.OtherStreams | src/ctl_server.c:412-460 | NUL, 255 bytes without an end, and silence get their own answers |
| ControlLine.ReadDigits | src/ctl_server.c:241-247 | the limit tested per digit keeps 32 bits from wrapping and rejects only numbers above it |
| ControlLine.ParseTtl | src/ctl_server.c:228-257 | accepts exactly ttl= and digits of value 1 to one year |
| ControlLine.ParseCidr | src/ipaddr.c:34-83 | accepts exactly texts of fewer than 128 bytes without NUL: an address, and after a slash digits of value at most the width; the result is masked |
| ControlLine.ParsePrefixLen | src/ipaddr.c:55-79 | the digits after the slash: non-empty, of value at most the width |
| ControlLine.DecimalByPowers | src/ipaddr.c:63-69 | digits count by powers of ten |
| ControlLine.BareAddressIsOneHost | src/ipaddr.c:34-83 | a text without a slash stands for exactly its one address |
| ControlLine.SlashGivesLength | src/ipaddr.c:34-83 | with a slash, for the addresses that agree on as many leading bits as the digits say |
| ControlLine.LeadingZeros | src/ipaddr.c:63-69 | leading zeros never change the value of a prefix length |
| ControlLine.ParseAllowPorts | src/config.c:182-213 | accepts exactly lists of at most eight ports from 1 to 65535, and keeps them |

## Left out

- Xdp.Program.Run: the 64-bit counters are unbounded numbers here, because a wrap needs more frames than a NIC can see; a missing metrics or configuration array entry, which the kernel rules out, is not modelled.
- Xdp.CountFrame: which entries the remote LRU map pushes out is kernel behaviour; any may go.
- Kernels.Kernel.FlushLpm: the key order of the trie is arbitrary but fixed during one flush.
- Controllers.Ctrl.Reload: starts from a configuration that loaded; a configuration that does not load changes nothing.
- DropTables.DropTable.Find: the bucket index is the 32-bit hash modulo the bucket count, which for a power of two is its mask.
- Loading, attaching and detaching the BPF object, memory limits, per-CPU summing: foreign calls without a property of their own.
- ControlLine.ParseCidr: what text is an address is `inet_pton`, a parameter here; printing addresses is not modelled.
- ControlLine.ParseAllowPorts: works on the values of the tokens; splitting, trimming and the number syntax of `strtoull` are library behaviour.
- Configuration files, trimming and the scalar table: many easy cases.
- The command table, replies, sockets, poll loop, daemon start and stop, pid file, HTTP metrics: plumbing.
- Log lines and their per-tick counters: presentation.
- The Lua client and the website.
