# A verified model of slipmesh

slipmesh connects the nodes of a Talos Linux cluster through AmneziaWG tunnels. `taloscfg` renders every
node's configuration from one file, the `awg` daemon keeps tunnel interfaces and their routes, and the
`router` daemon drives BIRD and keeps a set of blackholed "bypass" prefixes. This project models the parts
of these programs that are hard to get right and proves what they are for.

`dafny verify dfyconfig.toml` verifies all of it.

## What is modelled

**Prefixes and the bypass** (`Words`, `Cidr`, `Blocks`, `CidrOps`, `Collapse`, `Resolver`, `BypassBounds`,
`BypassCache`). A prefix denotes a block of 32-bit addresses (section 3.1 of RFC 4632). `Blocks` defines the
canonical form of an address set - aligned, pairwise disjoint prefixes without a sibling pair - and proves
it to be exactly the maximal aligned blocks of the set, unique, and shorter than any other list of prefixes
that covers the set. `address_exclude` and `collapse` are modelled loop by loop, with the `used` array, and
proved to give that form; `collapse` for every input, host bits included. The pipeline is proved to give,
per label, the canonical form of what the label includes without what is excluded.

**Route tracking** (`Routes`, `RouteRuns`, `Installed`, `Passes`, `Handshake`, `AwgMain`, `PeerDumps`). The
reconciler is a class over a kernel any of whose calls may fail. Every pass is proved to be a stretch of a
state machine in which reconciliations, failed dumps, restarts with any other config and other programs'
routes interleave freely, and the safety theorems are about every run of that machine. The model assumes of
the kernel:

- a call that fails changes nothing, and only this daemon touches routes that carry its tag;
- one route per destination, so that adding is a replace, also over a route of another interface;
- a link that is removed takes its routes with it;
- deleting a route that is missing, or that is another interface's or another program's, succeeds and
  changes nothing.

A CIDR is a destination and a spelling of it. Nothing is assumed about which spellings or destinations a
config uses: `SoundIffInstalledIsThere` proves what a config must be like, and `ExactIff` what a start must
find. `Passes` says what one pass over all interfaces does to the kernel's routes from any reachable state.

**Patch documents** (`Json`, `Merge`, `Patches`, `Specificity`). YAML values with ordered mappings, the
in-place merge, and the grouping of documents by identity. `Json` holds JSON Merge Patch as section 2 of RFC
7386 defines it, on unordered objects; the ordered merge refines it. `Specificity` says of the file and a
host's documents alone which document has the last word.

**The topology** (`Topology`, `Secrets`, `Edit`, `MeshConfig`, `Validity`, `Addressing`, `Render`,
`Generate`). Minting secrets, recording them in the file, validating, deriving addresses, rendering. The
random generators are a parameter that says what would be drawn for each entry; of the obfuscation generator
only the contract is used that it sets its nine fields. Deriving a public key is a parameter too.

**Two protocols** (`PeerDiff`, `PeerSync`, `Birdc`). The peer diff of an interface with its fallback for
endpoints that do not resolve; what sending it does to a WireGuard device, of which is assumed that an allowed
IP belongs to one peer and moves to the one it is given to, that a peer keeps the endpoint it has unless it is
sent one, and that a call that fails changes nothing; and BIRD's reply framing against a printer of the format
BIRD documents. `Lists` holds sorting and the order of texts.

## Where the code does not do what it seems to

Six properties hold on fewer inputs than the code or its comments suggest. Each is stated as an
if-and-only-if, with an input or run where it fails.

- `parse_cidr` keeps host bits. `collapse` gives the minimal cover only if every entry with host bits is
  subsumed by a larger aligned one (`CollapseCanonicalIff`), and a prefix with host bits is not honoured as an
  exclusion (`ExclusionNeedsAlignment`); see `HostBitsExample` and `HostBitsExclusionExample`.
- What the daemon takes for installed is not always in the kernel. From a start up to the next restart all of
  it is, in every run, if and only if no destination goes by two spellings on an interface and none that an
  interface has read back or allows is allowed on another (`ExactIff`): a config that moves a CIDR to another
  interface is enough to break it (`MovedCidrExample`), and a failed dump then leaves the old interface without
  its route and with the text (`FailedDumpLosesRoute`, `UntouchedIff`). For the texts of current peers alone it
  holds in all runs of a config if and only if the config shares no destination between interfaces and spells
  each one as the kernel does (`SoundIffInstalledIsThere`; `TwoSpellingsBreak`, `ForeignSpellingBreaks`,
  `SharedBreaks`). Route tags do not help with a leftover default route, which the startup seed cannot read back
  (`CleanStartIff`, `LeftoverDefaultExample`).
- The first document of a group keeps its nulls, so two documents that say nothing different still cannot
  always trade places (`PairSwapsIff`, `NullInFirstExample`).
- Distinct node ids give distinct IPv4 loopbacks only in a network of no bits, and distinct IPv6 loopbacks
  only up to 96 bits (`Ipv4NeverCollidesIff`, `Ipv6NeverCollidesIff`, with `Ipv4CollisionExample` and
  `Ipv6CollisionExample`): what the validator says of distinct ids is a necessary condition, not a sufficient
  one.
- A plain link is rendered without obfuscation only if the last link of its key is plain
  (`RenderedPlainIff`). Node names with a bar give different pairs of nodes one key, and in a valid
  topology of four such nodes a plain link is rendered obfuscated (`BarNamesExample`). Two links
  between the same nodes share a key too; those the daemon's validator refuses (`NamesAreDistinctIff`).
- Synchronizing peers reaches the desired ones only if every key decodes and every allowed IP parses, no
  allowed IP is wanted by two peers, a key the device has is spelled as it is reported, and no peer that is sent
  has learned an endpoint its config does not set (`SyncReachesIff`). A roaming client is sent anew every time
  for that reason (`LearnedEndpointExample`), and a key with a space around it is put in place and removed
  again (`SpacedKeyExample`).

## Model

| member | source | states |
|---|---|---|
| Cidrs.MaskIsShift | router/src/cidr.rs:34-40 | A mask is the machine's all ones shifted left by 32 minus the length, for every length. |
| Cidrs.BlockSizeIsShift | router/src/cidr.rs:59-62 | The step to the upper half is one shifted left by 32 minus the length. |
| Cidrs.NetworkIsShift | router/src/cidr.rs:42-44 | A network address is the address with the host bits cleared. |
| Cidrs.InIsPrefix | router/src/cidr.rs:42-48 | An address lies in a block if and only if the two agree after a right shift by the number of host bits; every address lies in a block of length 0. |
| Cidrs.ContainsBlock | router/src/cidr.rs:46-48 | A prefix that contains another is aligned and its block holds the other's block. |
| Cidrs.WrappingAddIsUpper | router/src/cidr.rs:59-62 | The wrapping addition that steps to the upper half sets one clear bit, so it never wraps. |
| Cidrs.SiblingAligned | router/src/cidr.rs:109-116 | The sibling of an aligned prefix is aligned, of the same length, different from it, the other child of its parent, and has it for sibling in turn. |
| Cidrs.SiblingSplits | router/src/cidr.rs:109-116 | A prefix and its sibling split their parent's block without overlap. |
| Blocks.SubsetIsContains | router/src/cidr.rs:46-48 | Between aligned prefixes, inclusion of the blocks is what `contains` decides. |
| Blocks.Nested | router/src/cidr.rs:46-48 | Two aligned blocks are nested or disjoint. |
| Blocks.WithinOne | router/src/cidr.rs:74-77 | An aligned block inside the union of a canonical list lies inside one single member of it. |
| Blocks.CanonicalIsMaximal | router/src/cidr.rs:74-77 | Aligned, pairwise disjoint prefixes without a sibling pair are exactly the maximal aligned blocks of their union. |
| Blocks.MaximalIsCanonical | router/src/cidr.rs:74-77 | The maximal aligned blocks of any address set are canonical and cover it. |
| Blocks.CanonicalIsUnique | router/src/cidr.rs:74-77 | Two canonical lists of one address set are the same set of prefixes. |
| Blocks.CanonicalIsFewest | router/src/cidr.rs:74-77 | No set of prefixes that covers the same addresses, aligned or not, is smaller than a canonical one. |
| CidrOps.HalvesOf | router/src/cidr.rs:58-69 | Of the two halves of a block that strictly contains an aligned exclusion, exactly one holds it, the other is disjoint from it. |
| CidrOps.AddressExclude | router/src/cidr.rs:52-72 | Returns, without duplicates, exactly the maximal aligned blocks of `net` minus `exclude`, as many as the prefix lengths differ; every shift and the loop are in bounds. |
| Collapsing.SortDedup | router/src/cidr.rs:79-81 | Sorting and deduplicating gives the strictly sorted list of the same elements. |
| Collapsing.OuterIsLess | router/src/cidr.rs:79-81 | In the sorted order a prefix comes before every other one inside it. |
| Collapsing.SortedIsUnique | router/src/cidr.rs:79-81 | A strictly sorted list is determined by its elements. |
| Collapsing.FindUnused | router/src/cidr.rs:117-120 | Finds an entry equal to the sibling, at another position and not used up, exactly when there is one. |
| Collapsing.MergePass | router/src/cidr.rs:97-134 | One pass keeps the covered addresses, the unaligned entries and disjointness; one that merges nothing found no sibling pair and returns the same elements; one that merges returns a shorter list. |
| Collapsing.Collapse | router/src/cidr.rs:78-139 | For every input: the result is sorted, its aligned entries are the canonical form of what the aligned entries cover, and its unaligned entries are those no larger aligned entry subsumes. |
| Collapsing.CollapseCovers | router/src/cidr.rs:78-139 | `collapse` keeps the covered addresses, whatever its input. |
| Collapsing.CollapseCanonicalIff | router/src/cidr.rs:78-139 | The result is canonical if and only if every entry with host bits is subsumed by a larger aligned entry. |
| Collapsing.HostBitsExample | router/src/cidr.rs:78-139 | 0.0.0.1/31 alone collapses to no canonical form. |
| Collapsing.CollapseIsCanonicalForm | router/src/cidr.rs:78-139 | Inputs that cover the same addresses collapse to the same list, where every entry with host bits is subsumed by a larger aligned one. |
| Collapsing.CollapseIsFewest | router/src/cidr.rs:78-139 | For such inputs no list of prefixes that covers the same addresses is shorter. |
| Collapsing.ExcludeIsFewest | router/src/cidr.rs:50-72 | No list of prefixes says `net` without `exclude` in fewer. |
| Resolver.GroupByNet | router/src/resolver.rs:263-270 | A prefix carries the label of the first entry that names it; entries that do not parse count for nothing. |
| Resolver.LabelIsFirst | router/src/resolver.rs:265-270 | The label of a prefix is that of the first entry that names it. |
| Resolver.GroupByLabel | router/src/resolver.rs:271-275 | Every label gets exactly its prefixes, whatever order the map is walked in. |
| Resolver.DedupeAndAggregate | router/src/resolver.rs:262-284 | Every label's prefixes are what `collapse` makes of the prefixes whose first entry carries that label; no pair is listed twice, and the pairs come sorted by prefix, then label. |
| Resolver.AggregateTame | router/src/resolver.rs:262-284 | Where every prefix with host bits is subsumed by a larger aligned one, whatever the labels, it still is among the aggregated prefixes. |
| Resolver.ResolveEntries | router/src/resolver.rs:286-291 | Fails if and only if a source fails; else aggregates the entries of all sources together. |
| Resolver.Exclusions | router/src/resolver.rs:321-326 | The exclusions, collapsed over all labels, cover exactly what is excluded, and are aligned when those with host bits are subsumed by larger aligned ones. |
| Resolver.PunchOut | router/src/resolver.rs:332-342 | One exclusion: a pending prefix inside it goes, one around it is split into the maximal blocks of the difference, another stays; nothing is duplicated. |
| Resolver.PunchedIsMaximal | router/src/resolver.rs:332-342 | The maximal blocks of a set, punched by an aligned exclusion, are the maximal blocks of the set without it. |
| Resolver.PunchAll | router/src/resolver.rs:330-344 | Of any prefix and any exclusions, what survives taking them out one after the other; with aligned ones, the maximal blocks of the prefix without any of them. |
| Resolver.PunchedPiecewise | router/src/resolver.rs:329-348 | Punching each prefix of a canonical list on its own gives the maximal blocks of the whole set without the holes. |
| Resolver.ResolveInner | router/src/resolver.rs:310-351 | An error for failed sources and, before the exclusions are looked at, for sources that give no prefix, and in no other case; for whatever entries, under each label what survives of its aggregated prefixes; where every entry with host bits is subsumed by a larger aligned one (an included one under its own label), the maximal blocks of what the label includes minus everything excluded; sorted by prefix text, then label. |
| Resolver.BypassMeaning | router/src/resolver.rs:293-295 | The prefixes under a label cover exactly its included addresses minus all excluded ones, and no other cover of them is smaller. |
| Resolver.BypassIgnoresOrder | router/src/resolver.rs:328-348 | Exclusions that cover the same addresses, in any order and division, give the same prefixes. |
| BypassBounds.BypassBetween | router/src/resolver.rs:328-348 | For whatever entries, host bits included: under each label nothing is covered that is not included, and everything that is included and not excluded. |
| BypassBounds.AlignedExclusionsHold | router/src/resolver.rs:328-348 | Under a label whose entries with host bits are subsumed, no address of an aligned exclusion is left, whatever host bits other exclusions have. |
| Resolver.ExclusionNeedsAlignment | router/src/resolver.rs:84-87 | An exclusion is taken out of every aligned prefix exactly if and only if it has no host bits. |
| Resolver.HostBitsExclusionExample | router/src/resolver.rs:331-342 | 10.0.0.1/24 is not taken out of 10.0.0.0/25, whose addresses it all holds. |
| Resolver.InclusionNeedsAlignment | router/src/resolver.rs:84-87 | An included prefix gets every aligned exclusion out exactly if and only if it has no host bits. |
| BypassCache.RouterState.CurrentBypassRoutes | router/src/main.rs:196-238 | Serves the latest routes that any attempt so far resolved, none only while none did; attempts once where there is something to fall back on, else up to five times until the first success. |
| Routes.OursAfter | awg/src/handshake.rs:167-196 | One reconciliation, whatever failed: the interface's own routes are those before, plus the added, minus the deleted destinations. |
| Routes.OthersAfter | awg/src/handshake.rs:167-196 | On another interface no route of ours appears, and only destinations added here disappear. |
| Routes.ForeignAfter | common/src/netlink/rt.rs:360-404 | A route of another protocol is not deleted, is replaced only by an add of its own destination, and none is made. |
| Routes.CleanStartIff | common/src/netlink/rt.rs:434-459 | A seed and a reconciliation without failures leave exactly the needed routes if and only if no default route of ours is left over that nobody needs. |
| Routes.LeftoverDefaultExample | common/src/netlink/rt.rs:511-524 | A default route of ours that nobody needs outlives a seed and a clean reconciliation. |
| RouteRuns.FreshIff | awg/src/handshake.rs:170-176 | A peer is fresh if and only if the dump has a handshake of it that is not zero and `now` is less than that plus the staleness allowance, which is not zero. |
| RouteRuns.StaleStaysStale | awg/src/handshake.rs:170-176 | A peer that is not fresh stays so while the clock moves on and nothing new is heard of it. |
| RouteRuns.NeededIff | awg/src/handshake.rs:170-187 | A route is needed if and only if some peer that has it was heard of in time. |
| RouteRuns.StepKeepsInstalled | awg/src/handshake.rs:157-197 | Every step keeps: an installed text of a current peer is a route on its interface, and every installed text is a current peer's or one a seed read. |
| RouteRuns.StepKeepsComplete | awg/src/handshake.rs:157-197 | Every step keeps: an interface whose seed succeeded has all our routes on it in its set. |
| RouteRuns.RunsKeepInstalled | awg/src/handshake.rs:211-235 | In every run, with failures, restarts and foreign routes interleaved, the installed texts of current peers are in the kernel. |
| RouteRuns.RunsKeepComplete | awg/src/handshake.rs:211-235 | In every run, an interface whose seed succeeded knows every route of ours on it. |
| RouteRuns.SettledIsExact | awg/src/handshake.rs:211-235 | In every run, where the seed succeeded and all installed texts are of current peers, the installed set is exactly the interface's routes. |
| RouteRuns.SoundIffInstalledIsThere | awg/src/handshake.rs:170-186 | The installed texts of current peers are in the kernel in all runs of a config if and only if it shares no destination between interfaces and spells each as the kernel does. |
| RouteRuns.TwoSpellingsBreak | awg/src/handshake.rs:189-196 | A run in which two spellings of one destination leave a text installed without a route. |
| RouteRuns.ForeignSpellingBreaks | common/src/netlink/rt.rs:426-429 | A run in which, after a restart, deleting the seed's spelling takes away the route just added under the config's. |
| RouteRuns.SharedBreaks | common/src/netlink/rt.rs:360-368 | A run in which the add of a destination on a second interface moves the first one's route. |
| Installed.StepKeepsExact | awg/src/handshake.rs:157-197 | With the interfaces apart, every step but a restart keeps all installed texts, stale ones included, in the kernel, and keeps seeded sets complete. |
| Installed.RunsKeepExact | awg/src/handshake.rs:211-235 | In every run, restarts with other configs included, each of whose starts finds the interfaces apart and no default route left over: the installed sets lie in the kernel's routes of ours, with equality where the seed succeeded. |
| Installed.ExactIff | awg/src/handshake.rs:211-235 | From a start up to the next restart, all that is installed is in the kernel in every run if and only if the start finds the interfaces apart; and it is exactly our routes where the seed succeeded if and only if, besides, no default route is left over. |
| Installed.SoundApartIff | awg/src/handshake.rs:217-227 | At the start of a sound config the interfaces are apart if and only if no seed read a destination that another interface's peer allows. |
| Installed.MovedCidrExample | awg/src/handshake.rs:157-186 | A config that moved a CIDR to another interface: with all seeds read and no call failing, one reconciliation leaves the old interface's set with a text whose route is gone. |
| Installed.OneConfigIff | awg/src/handshake.rs:211-235 | A daemon only ever restarted with one config, over a kernel without routes of any other, has all that is installed in the kernel in every run if and only if the config is sound. |
| Passes.PassEntry | awg/src/handshake.rs:151-198 | A pass changes an interface's set by its own turn only, and not at all when its dump failed. |
| Passes.PassNeverAway | awg/src/handshake.rs:151-198 | From any state a run of sound configs reaches, whatever fails in a pass over all interfaces: where the dump was read no route a fresh peer needs goes, what is missing does not grow, what is too much does not grow; where it failed no route of the interface's own peers goes and none appears. |
| Passes.CleanPassTakes | awg/src/handshake.rs:157-164 | A pass in which no call fails takes from an interface whose dump failed exactly the routes whose destinations other interfaces were missing. |
| Passes.UntouchedIff | awg/src/handshake.rs:157-164 | Every pass leaves the routes of an interface whose dump failed as they are if and only if none of them has a destination that another interface is missing. |
| Passes.ApartIsUntouched | awg/src/handshake.rs:157-164 | With the interfaces apart, a seeded interface whose dump failed keeps its routes. |
| Passes.FailedDumpLosesRoute | awg/src/handshake.rs:157-186 | After a config has moved a CIDR, a pass that cannot read the old interface's handshakes takes its route away and leaves its set as it was. |
| Passes.PassConverges | awg/src/handshake.rs:151-198 | From any reachable state, a pass that reads a seeded interface's handshakes and fails no call there leaves exactly the routes its fresh peers need. |
| Passes.NothingIsLeftOver | awg/src/main.rs:148-155 | Such a pass leaves no route of an earlier config on the interface, and none at all where no peer is tracked. |
| Passes.SilentRoutesGo | awg/src/handshake.rs:170-196 | After a pass that fails no call on the interface, a route that only peers have whose handshake is the staleness allowance old or older, or who have none, is not installed, and is gone from the kernel where the seed was read or it was installed. |
| Passes.HeardRoutesAreThere | awg/src/handshake.rs:170-187 | After such a pass every route of a peer heard of in time is installed and in the kernel. |
| Passes.PassKeepsForeign | common/src/netlink/rt.rs:370-374 | A pass makes no route of another protocol and keeps every one whose destination no peer of the config has. |
| Handshake.Kernel.RouteAdd | common/src/netlink/rt.rs:360-368 | A route added replaces the one of its destination; a failed call changes nothing. |
| Handshake.Kernel.RouteDelete | common/src/netlink/rt.rs:370-404 | Only a route of ours on that interface is deleted; a failed call changes nothing. |
| Handshake.Kernel.RoutesByProtocol | common/src/netlink/rt.rs:437-459 | Reads back our routes on an interface in the kernel's spelling, but for a default route, or fails. |
| Handshake.Reconciler.constructor | awg/src/handshake.rs:217-227 | Makes exactly one read per tracked interface, in order; the installed sets are what the kernel holds on exactly the interfaces whose read succeeded. |
| Handshake.Reconciler.InstallPeer | awg/src/handshake.rs:177-186 | Tries to add every allowed IP that is not installed, whichever others fail, and no other; counts as fresh what is installed afterwards. |
| Handshake.Reconciler.InstallFresh | awg/src/handshake.rs:168-187 | In any order of the peers: everything that fresh peers need and was missing is tried, and added is what succeeded; still fresh is what is needed and installed. |
| Handshake.Reconciler.RemoveStale | awg/src/handshake.rs:189-196 | Tries to delete every stale text, whichever others fail; deleted is what succeeded, the rest stays known. |
| Handshake.Reconciler.ReconcileInterface | awg/src/handshake.rs:167-196 | The table and the installed set follow one change: what the calls achieved. Every needed text that is missing is tried to add, every installed one that is not needed to delete, and nothing else is called. |
| Handshake.Reconciler.ReconcilePass | awg/src/handshake.rs:151-198 | One turn per interface in order: nothing for a failed dump; else every call there is a reason for is tried and the change is what succeeded; a set becomes what is needed when no call fails; what is installed for current peers stays in the kernel. |
| Handshake.SecondPassIsQuiet | awg/src/handshake.rs:177-196 | After a pass in which no call failed there is none that one with the same clock and dumps could make. |
| Handshake.ReconcileTwice | awg/src/handshake.rs:229-234 | Two passes with the same clock and dumps, executed in any reachable state: if no call of the first fails, the second makes none, and exactly the needed routes are left on every seeded interface whose dump was read. |
| Handshake.StartAndReconcile | awg/src/handshake.rs:211-232 | Over any kernel table an earlier daemon left: one read per interface, and a first pass in which no call fails leaves exactly the needed routes on every interface whose routes and handshakes could be read. |
| Handshake.Reconciler.SnapshotFrom | awg/src/handshake.rs:127-149 | Reports exactly the peers with at least one allowed IP all of whose allowed IPs are installed. |
| Handshake.ConnectedMeans | awg/src/handshake.rs:123-149 | A name and key are reported if and only if an interface of that name has a peer of that key with at least one allowed IP and all of them installed. |
| Handshake.ConnectedIsRouted | awg/src/handshake.rs:123-126 | In every run, a peer reported connected has every one of its routes in the kernel, on its own interface. |
| Handshake.ConnectedIff | awg/src/handshake.rs:123-149 | Where the seed succeeded and no other interface has the name, a peer is in the report if and only if all its routes are in the kernel and it has one. |
| Handshake.SilentIsNotConnected | awg/src/handshake.rs:123-149 | After a pass that fails no call on its interface, a peer with a route that only silent peers have is not in the report. |
| AwgMain.TrackedPeers | awg/src/main.rs:162-167 | A key is tracked if and only if an entry of it sets allowed IPs, and with those of the last such entry. |
| AwgMain.BuildTrackedInterfaces | awg/src/main.rs:156-182 | Fails if and only if a configured interface is missing; else tracks every interface of the config, in order, with an allowance of 180 seconds where none is set. |
| AwgMain.TrackedIndicesAreDistinct | awg/src/main.rs:156-182 | Distinct names and link numbers give distinct tracked indices. |
| AwgMain.EmptyInterfaceIsTracked | awg/src/main.rs:148-155 | An interface without tracked peers is tracked with no peers. |
| PeerDumps.MergePeerAttrs | awg/src/handshake.rs:67-98 | Each peer's stats are, field by field, the last value reported for its key anywhere in the dump; a peer is in the map exactly when a frame of it is in the dump. |
| PeerDumps.DumpReads | awg/src/handshake.rs:67-98 | Said of attributes, frames and positions: a field is the last that any frame of the peer, in any `Peers` attribute of the dump, says about it; a negative handshake is zero. |
| PeerDumps.UnsaidIsZero | awg/src/handshake.rs:83 | A field no frame of the peer says anything about is zero. |
| PeerDumps.InDumpIff | awg/src/handshake.rs:69-82 | A peer is in the map if and only if some frame of the dump has its key for first public key. |
| PeerDumps.MergeFrame | awg/src/handshake.rs:75-94 | One more frame extends what the map reads as by that frame. |
| PeerDumps.LastReportWins | awg/src/handshake.rs:85-93 | A field is the last report about it, a handshake before the epoch being zero. |
| PeerDumps.OnlyReportsCount | awg/src/handshake.rs:63-98 | Two dumps with the same reports per peer, in each peer's order, read the same. |
| PeerDumps.FramesOfOthersCommute | awg/src/handshake.rs:63-98 | Neighbouring frames of different peers may change places. |
| PeerDumps.CutFrameReadsTheSame | awg/src/handshake.rs:63-66 | A peer's frame cut anywhere after its key and resumed under the key alone reads as the whole frame: a continuation resets nothing. |
| Json.CommuteIffAgree | taloscfg/src/merge.rs:33-53 | Two patches can be applied in either order to every target if and only if they say nothing different about any one place. |
| Json.AnyOrder | taloscfg/src/slipmesh_file.rs:363-365 | Any number of patches that agree pairwise give one result in any order. |
| Json.PatchOverNothing | taloscfg/src/merge.rs:37-42 | A document merged over nothing is itself if and only if it has no null to lose. |
| Json.SwapIff | taloscfg/src/merge.rs:33-53 | For two agreeing objects, either over the other is the same if and only if every null of one is said by the other. |
| Json.NullInFirstExample | taloscfg/src/merge.rs:33-53 | Two agreeing objects that give different results either way round: a null of the base stays, the same null in an overlay does not. |
| Merging.Merge | taloscfg/src/merge.rs:33-53 | The looped, in-place merge of ordered mappings equals its recursive definition, at every depth. |
| Merging.FindMerged | taloscfg/src/merge.rs:33-53 | Keys stay distinct, and for every key: an overlay's null removes it, an overlay's value is merged over the base's, a key not mentioned keeps its value. |
| Merging.KeysMerged | taloscfg/src/merge.rs:5-6 | The base's keys keep their order, less the nulled ones; new keys follow in the overlay's order. |
| Merging.MergeIsIdempotent | taloscfg/src/merge.rs:33-53 | Merging the same overlay twice equals merging it once, order included, at every depth. |
| Merging.MergeRefinesPatch | taloscfg/src/merge.rs:1-6 | On keys and values the ordered merge is JSON Merge Patch, section 2 of RFC 7386. |
| Merging.MergedIsWellFormed | taloscfg/src/merge.rs:33-53 | No mapping of the result holds a key twice, at any depth. |
| Merging.DeletionMeans | taloscfg/src/merge.rs:29-31 | A document is a deletion if and only if it holds the text "delete" under "$patch". |
| Merging.MergeDocument | taloscfg/src/merge.rs:22-27 | A deletion on either side makes the overlay the result; else the merge is. |
| Merging.MergeKeepsText | taloscfg/src/merge.rs:22-27 | A text both documents hold under a key stays, and where neither holds text none appears, deletions included. |
| Merging.MergedIsNoDeletion | taloscfg/src/merge.rs:19-31 | The merge of two edits is no deletion. |
| Patches.Choose | taloscfg/src/slipmesh_file.rs:340 | The documents that reach a host, in file order; the other selections likewise. |
| Patches.DistinctIdentities | taloscfg/src/slipmesh_file.rs:342-348 | The loop lists the identities in order of first appearance. |
| Patches.IdentitiesInOrder | taloscfg/src/slipmesh_file.rs:342-348 | No identity is listed twice, every reaching document's is listed and no other, and an earlier one appears before a later one's first document. |
| Patches.FoldDocuments | taloscfg/src/slipmesh_file.rs:363-365 | The fold of a group takes its first document as it is and merges the others over it in order. |
| Patches.PatchesFor | taloscfg/src/slipmesh_file.rs:338-376 | Refuses exactly the hosts the network lacks; else one document per identity that reaches the host, in order of first appearance, each the fold of its group, defaults before documents that name hosts. |
| Specificity.ReachesIff | taloscfg/src/slipmesh_file.rs:123-129 | A document is for a host if it has no include list or the host is on it, and the host is on no exclude list. |
| Specificity.IdentityMeans | taloscfg/src/slipmesh_file.rs:444-452 | A document's identity is the text it holds under "apiVersion", "kind" and "name", each if it holds any. |
| Specificity.HostGets | taloscfg/src/slipmesh_file.rs:338-352 | A host gets exactly one document for each identity that a document for it has, and no other. |
| Specificity.SpecificWins | taloscfg/src/slipmesh_file.rs:333-365 | Text that a document naming the host holds under a key is what the host's document holds there, if no later one that names the host mentions the key and none of these is a deletion, whatever the defaults say and wherever they stand. |
| Patches.GroupsPartition | taloscfg/src/slipmesh_file.rs:340-362 | The groups together hold exactly the documents that reach the host, each as often as it is there. |
| Patches.InterleavingIsIrrelevant | taloscfg/src/slipmesh_file.rs:335-337 | Files with the same defaults in order and the same host-naming documents in order have the same groups for every host, however the two kinds interleave. |
| Patches.FoldedRefinesPatches | taloscfg/src/slipmesh_file.rs:363-365 | Without deletions, a group's content is its first document with the others applied as JSON Merge Patches. |
| Patches.PatchesKeepIdentity | taloscfg/src/slipmesh_file.rs:350-376 | Every document a host gets has the identity it is listed under. |
| Patches.DeletionForgets | taloscfg/src/merge.rs:19-27 | A deletion makes its group forget what came before it, and the document after it starts afresh. |
| Patches.FoldedInAnyOrder | taloscfg/src/slipmesh_file.rs:363-365 | Agreeing documents without nulls and deletions fold to the same keys and values in any order. |
| Patches.FileOrderIsIrrelevant | taloscfg/src/slipmesh_file.rs:338-376 | Shuffling all documents of a file leaves the content of such a group as it was. |
| Patches.PairSwapsIff | taloscfg/src/slipmesh_file.rs:360-365 | Two agreeing documents of a group can trade places if and only if they share their nulls. |
| Topologies.LinkKeyIsSymmetric | taloscfg/src/secrets.rs:28-33 | A link's key does not depend on the order of its pair. |
| Topologies.LinkKeyIsCanonical | taloscfg/src/secrets.rs:28-33 | For names without a bar, two links have one key if and only if they join the same two nodes. |
| Topologies.BarsConfuseLinkKeys | taloscfg/src/secrets.rs:28-33 | With bars in names, links between four different nodes can have one key; `Render.BarNamesExample` is a valid topology that suffers from it. |
| Secrets.ResolveKey | taloscfg/src/secrets.rs:66-74 | The key that is set, else the fresh one, which alone is reported as generated. |
| Secrets.ResolveObfuscation | taloscfg/src/secrets.rs:80-122 | Field by field the entry's value, else the topology's, else the fresh one; reported as generated exactly the fields neither sets. |
| Secrets.ForIsLayered | taloscfg/src/secrets.rs:80-138 | Nothing for a plain entry; else a field is set if and only if the entry, the topology or the generator sets it, and by the first of them. |
| Secrets.ResolveUnlessPlain | taloscfg/src/secrets.rs:127-138 | A plain entry resolves to no field and generates none; another reports nothing generated when nothing was lacking. |
| Secrets.Resolve | taloscfg/src/secrets.rs:140-201 | Secrets, minted values and their names for all nodes, links and pools. |
| Secrets.NamesAre | taloscfg/src/secrets.rs:140-201 | Named as generated are exactly the keys the file does not set, and the links and pools that are not plain and lack a field neither they nor the topology set. |
| Secrets.EmptyIffNothing | taloscfg/src/secrets.rs:54-63 | The names are empty if and only if nothing was minted for any node, link or pool. |
| Edit.Fill | taloscfg/src/edit.rs:58-70 | Takes over exactly the minted ones of the nine fields, and no other. |
| Edit.PoolAt | taloscfg/src/slipmesh_file.rs:305-310 | The first pool of a name, if there is one. |
| Edit.SlipmeshYaml.RecordNetwork | taloscfg/src/edit.rs:128-149 | Writes node keys and link fields to the entries they were minted for, all or none of them. |
| Edit.SlipmeshYaml.Record | taloscfg/src/edit.rs:127-168 | Succeeds exactly when every minted value has its entry, and then writes each into its own and changes nothing else. |
| Edit.SlipmeshYaml.Settle | taloscfg/src/main.rs:411-429 | A run fails exactly for a dry run that would mint; it returns the resolved secrets and leaves the file with every lacking secret filled in, or as it was. |
| Edit.RecordedIsSettled | taloscfg/src/edit.rs:127-168 | Recording what resolving minted gives every entry exactly the secrets it lacked; nothing minted is without a place. |
| Edit.RecordReachesFixpoint | taloscfg/src/secrets.rs:1-4 | Resolving again after recording mints nothing and yields the same secrets for every node, link and pool, whatever would be drawn. |
| Edit.RecordOnlyAdds | taloscfg/src/edit.rs:4-7 | No field that is set changes, what is new the generator sets, nothing set globally is copied down, plain entries get no obfuscation, and nothing else of any entry changes. |
| MeshConfig.Use | taloscfg/src/mesh_config.rs:392-401 | A port is entered for a node exactly when no earlier link or pool claimed it there. |
| MeshConfig.ValidateNodes | taloscfg/src/mesh_config.rs:347-373 | Names are non-empty and distinct, ids parse and are distinct; a reported problem is real. |
| MeshConfig.ValidateLinks | taloscfg/src/mesh_config.rs:375-402 | Links join two different known nodes and no node listens twice on a port; a reported problem is real. |
| MeshConfig.ValidatePools | taloscfg/src/mesh_config.rs:404-440 | Pools have distinct names, known nodes, distinct clients and free ports; a reported problem is real. |
| MeshConfig.Validate | taloscfg/src/mesh_config.rs:346-451 | Accepts a topology if and only if it is valid, and what it reports of another is true of it. |
| Validity.ValidMeans | taloscfg/src/mesh_config.rs:346-451 | Valid, said of the entries: distinct non-empty node names and distinct ids that parse; every reference to a node; no link from a node to itself; distinct pools, and distinct client keys in a pool; and no node with two interfaces on one port, be they of links or pools. |
| MeshConfig.ProblemIsInvalid | taloscfg/src/mesh_config.rs:339-345 | A topology of which any of the problems is true is not valid. |
| Addressing.Ipv4LoopbackIsInside | taloscfg/src/addressing.rs:14-21 | A derived IPv4 loopback lies in its network. |
| Addressing.Ipv4LoopbackKeepsHostBits | taloscfg/src/addressing.rs:14-21 | Below the network's bits it is the id. |
| Addressing.Ipv4LoopbacksCollideIff | taloscfg/src/addressing.rs:14-21 | Two ids share an IPv4 loopback if and only if they agree on the host bits. |
| Addressing.Ipv4NeverCollidesIff | taloscfg/src/addressing.rs:14-21 | Distinct ids are sure of distinct IPv4 loopbacks if and only if the network has no bits. |
| Addressing.Ipv4CollisionExample | taloscfg/src/addressing.rs:14-21 | Ids 10.62.0.1 and 10.63.0.1 share a loopback in 10.62.0.0/16. |
| Addressing.Mask6Shifts | taloscfg/src/addressing.rs:26-30 | The mask of 128 bits is all ones, and each shorter one is the mask a bit longer shifted left by one. |
| Addressing.Ipv6LoopbackBits | taloscfg/src/addressing.rs:25-33 | In the network's bits a derived IPv6 loopback is the network, below them it is the id. |
| Addressing.Ipv6LoopbackLaws | taloscfg/src/addressing.rs:25-33 | A derived IPv6 loopback lies in its network, and two ids share one if and only if they agree on the host bits. |
| Addressing.LoopbackKeepsIdentity | taloscfg/src/addressing.rs:25-33 | In a network of at most 96 bits the low 32 bits of the loopback are the id. |
| Addressing.Ipv6NeverCollidesIff | taloscfg/src/addressing.rs:25-33 | Distinct ids are sure of distinct IPv6 loopbacks if and only if the network has at most 96 bits. |
| Addressing.Ipv6CollisionExample | taloscfg/src/addressing.rs:25-33 | Ids 10.62.0.1 and 10.63.0.1 share a loopback in any network of 112 bits. |
| Addressing.LinkLocalLaws | router/src/cidr.rs:154-161 | The link-local address keeps the loopback's low 32 bits and is fe80:: above them. |
| Addressing.LinkLocalRecoversIdentity | router/src/cidr.rs:148-161 | The link-local address of a derived loopback carries the node's id. |
| Render.FindNode | taloscfg/src/render.rs:48-53 | The first node of a name, or none exactly when no node has it. |
| Render.MeshInterfacesFor | taloscfg/src/render.rs:260-332 | The loop gives one interface per link of the node, in order, or the error of the first that fails. |
| Render.PortsAreDistinct | taloscfg/src/render.rs:378-384 | The interfaces rendered for a node of a valid topology listen on pairwise distinct ports. |
| Render.EndsAgree | taloscfg/src/render.rs:278-330 | For every link the interfaces at its two ends have the link's port and resolved obfuscation, each carries its own node's resolved key and addresses, names the other, has for endpoint the other's host, if it has one, with the link's port, and knows it by the public key of the other's own private key. |
| Render.MeshAddressesAre | taloscfg/src/render.rs:265-315 | The addresses are the two tunnel addresses of the node's id where the cluster has tunnel networks, else the link-local address of its loopback alone. |
| Render.NodeKeyIs | taloscfg/src/secrets.rs:140-152 | A node's resolved key is the file's where it sets one, and a drawn one only where it does not. |
| Render.PoolIsServed | taloscfg/src/render.rs:334-376 | Every node a pool names serves it on its port with its addresses and clients, in order, with the key the file sets or the drawn one, and with its layered obfuscation. |
| Render.RendersIff | taloscfg/src/render.rs:265-300 | Rendering a node of a valid topology with its resolved secrets fails only for an address plan that does not parse or a peer key that is none. |
| Render.NamesAreDistinctIff | awg/src/config.rs:92-104 | The interface names of a node are distinct, as the daemon demands, if and only if no node is linked to it twice. |
| Render.RenderedPlainIff | taloscfg/src/render.rs:284-330 | The interface entry rendered for an end of a link, with its name and port, has the fields that the last link of its key, the topology or the generator sets, and none if and only if that link is plain. |
| Render.BarNamesExample | taloscfg/src/secrets.rs:155-165 | A valid topology of four nodes and two links, the first plain: each end of the plain link renders to one interface, and that is obfuscated. |
| Render.BgpPeersAreTheOthers | taloscfg/src/render.rs:87-101 | A node has every other node for a peer, once, in file order, at the loopback that node itself derives. |
| Render.OthersInOrder | taloscfg/src/render.rs:87-101 | The other nodes come in the order of the file. |
| Render.BgpAddressesAreDistinctIff | taloscfg/src/render.rs:87-101 | Its peer addresses are distinct if and only if no two others agree on the host bits; at most 96 network bits suffice. |
| Render.LinkLocalsAreDistinct | taloscfg/src/render.rs:265-277 | Mesh interfaces of two nodes carry different scope-link addresses whenever their network has at most 96 bits. |
| Generate.ValidSame | taloscfg/src/mesh_config.rs:346-451 | Validity does not depend on secrets. |
| Generate.SecondRunRendersTheSame | taloscfg/src/main.rs:407-429 | A second run over the recorded file, which is still valid, mints nothing and renders for every node exactly the interfaces the first run did. |
| PeerDiff.DiffPeers | awg/src/interface.rs:176-207 | Exactly one operation for every key that differs and none for another, each saying what is wanted; what is put in place comes before what is removed, either in the order of keys. |
| PeerDiff.DiffersIff | awg/src/interface.rs:170-199 | A key gets an operation if and only if it is on one side only, or its allowed IPs as a set, its endpoint or its advanced security differ. |
| PeerDiff.ByKeyIsLast | awg/src/interface.rs:183-188 | Of several peers of one key the last counts. |
| PeerDiff.DiffReachesDesired | awg/src/interface.rs:170-175 | On the peer map, the operations turn the previous peers into the desired ones up to the order of allowed IPs, and leave every other peer as it is. |
| PeerDiff.EveryOpIsNecessary | awg/src/interface.rs:170-175 | Without any one of the operations the peers are not as desired. |
| PeerDiff.NoDiffNoOps | awg/src/interface.rs:209-220 | There is no operation if and only if the peers already are as desired. |
| PeerDiff.SortingIsIrrelevant | awg/src/interface.rs:166-167 | Sorting peers of distinct keys changes nothing for the diff. |
| PeerDiff.DesiredPeers | awg/src/interface.rs:341-366 | Each configured peer as resolved, else as first reported by the kernel, else left out. |
| PeerDiff.ResolvedPeerIs | awg/src/interface.rs:65-80 | An entry resolves unless looking its endpoint up fails, to its own key and flag, the address looked up, and its allowed IPs or those of the full tunnel. |
| PeerDiff.FirstIs | awg/src/interface.rs:352 | The state kept for a peer is the first the kernel reports of its key. |
| PeerDiff.UnresolvedIsLeftAloneIff | awg/src/interface.rs:344-365 | A peer that fails to resolve gets no operation if and only if the kernel does not report it, or its first and last reports are the same peer. |
| PeerDiff.ResolvedIsAsConfigured | awg/src/interface.rs:350-351 | A peer that resolves ends up in the peer map as its entry says, up to the order of allowed IPs. |
| PeerDiff.ReportedOnce | awg/src/interface.rs:352-353 | With every key reported once, the state kept for an unresolved peer is the one the diff compares with. |
| PeerDiff.OpsFor | awg/src/interface.rs:341-366 | The operations of one update: with distinct keys in what the kernel reports none is for an unresolved peer; in the peer map every peer that resolves ends up as its entry says, and one no entry names is gone. |
| PeerSync.AllowedOf | awg/src/interface.rs:235-249 | All allowed IPs of a peer, or none when one does not parse. |
| PeerSync.Updates | awg/src/interface.rs:222-290 | Every operation whose key decodes and whose allowed IPs parse becomes its update, in order; the others are left out and block nothing. |
| PeerSync.DeliveredHas | awg/src/interface.rs:281-288 | A key is on the device afterwards if and only if it was or is put there, and is not removed. |
| PeerSync.UntouchedPeer | awg/src/interface.rs:209-210 | A peer no update is about keeps its endpoint, gains no allowed IP, and loses only ones that others are given. |
| PeerSync.DesiredPeerIsThere | awg/src/interface.rs:250-282 | Where keys and allowed IPs are in order, every desired peer is on the device with its allowed IPs, and with its endpoint if and only if it did not differ, has an address to send, or the device already has that one. |
| PeerSync.RoamingIsKept | awg/src/interface.rs:263-280 | A peer without an endpoint of its own keeps the one the device has learned. |
| PeerSync.SyncReachesIff | awg/src/interface.rs:209-302 | The device has exactly the desired peers afterwards if and only if they are reachable: a condition on texts, overlaps, key spellings and learned endpoints known before the call. |
| PeerSync.LearnedEndpointExample | awg/src/interface.rs:263-280 | A peer without an endpoint whose device has learned one differs, is sent, and still is not as desired. |
| PeerSync.SpacedKeyExample | awg/src/interface.rs:197-205 | A key configured in another spelling than it is reported in is gone from the device after the update. |
| PeerSync.Device.SyncPeers | awg/src/interface.rs:211-302 | A failed call leaves the device as it was; else it has the desired peers if and only if they were reachable, a peer nothing is sent for keeps its endpoint, and no allowed IP belongs to two peers. |
| PeerSync.Device.EnsurePeers | awg/src/interface.rs:340-370 | The whole update of an interface's peers: unless the call fails, and as far as the peers are reachable, every entry that resolves has its peer on the device. |
| Birdc.ReadLine | router/src/birdc.rs:144-148 | Reads up to and with the first newline, or to the end of the stream, and loses nothing. |
| Birdc.LinesByForm | router/src/birdc.rs:64-94 | A code and a space make a final line, a code and a dash a coded continuation, a leading space an uncoded one; what is left of each is its text. |
| Birdc.ReadReply | router/src/birdc.rs:141-164 | The reading loop gives the reply, its code remembered from the last coded line, and the rest of the stream, or fails at its end; a final line always has a code. |
| Birdc.Command | router/src/birdc.rs:108-165 | A greeting that is no final line is an error; else the reply after it. |
| Birdc.AnswerNeedsGreeting | router/src/birdc.rs:126-133 | There is an answer only behind a first line of four digits and a space. |
| Birdc.ReadsToFirstFinal | router/src/birdc.rs:141-164 | Of any stream: a reply is read if and only if some line is final; it has the first such line's code, the text of all lines up to it, and leaves every byte after it. |
| Birdc.RoundTrip | router/src/birdc.rs:8-12 | Any reply printed in BIRD's format, codes elided or not, is read back with its final code and its text, and no byte after it is consumed. |
| Birdc.AnswerRoundTrip | router/src/birdc.rs:23-25 | Behind a printed greeting, the printed reply is what is read. |

## Left out

- Resolver.ResolveInner: takes the way prefixes are written as a parameter; the result is proved in the order of those texts.
- Resolver.DedupeAndAggregate: does not model the warning for entries that do not parse.
- RouteRuns.SoundIffInstalledIsThere: is stated for configs in which no interface has a staleness allowance of zero, since a peer of such an interface is never fresh and its routes are never added.
- Installed.ExactIff: has the same restriction for the same reason.
- Installed.OneConfigIff: has the same restriction for the same reason.
- Merging.Merge: models mapping keys as text only; YAML keys of other kinds and tags are not part of the model.
- Patches.PatchesFor: does not model turning `configFiles` contents into text nor serializing the document, both of which happen after the merge.
- Edit.SlipmeshYaml.Record: does not say what is left in the document when a minted pool has no document of its name, because the run then fails and nothing is written; `RecordedIsSettled` proves that this does not happen to what `resolve` mints.
- Render.MeshInterfacesFor: leaves out the handshake allowance and the text form of addresses and endpoints.
- PeerSync.Device.SyncPeers: leaves out advanced security, which the kernel never reports, and the keepalive interval sent along with an endpoint; what the device reports is taken to be all it has of each peer, so a report that cuts a peer in two is not covered.
- Birdc.Command: reads a stream of single-byte characters; the lossy decoding of invalid UTF-8, sending the command, and the time limit are left out.
- Texts: parsing of addresses, prefixes and YAML, formatting, templates and documents' positions in the file; the model starts from parsed values and keeps a value that did not parse as such.
- Netlink, sockets, HTTP, child processes and their wire formats; only the assumptions about the kernel listed above are used.
- RIPEstat and DNS lookups and their time limits: a source gives entries or fails, an endpoint resolves or does not.
- X25519, base64 and the random generators, but for the nine fields.
- A router without a bypass section, which serves no routes.
- Metrics, logging, garbage collection of links, `bird_conf`, the command line, and the range checks of the daemons' own validators.
