# hcm verification

A Dafny model of the service registry of hcm and of five smaller pieces of its front end and configuration, with
proofs of what they promise. `dafny verify dfyconfig.toml` checks everything.

## What is modelled

**The registry (`pkg/serviced`).** Any number of instances share one etcd store. Each grants a lease, puts its key with
it, and then checks, renews, drops and re-grants in a loop with fixed pauses; each runs two goroutines that decide from
two reads whether it is the master; lookups go to a cache that follows the store.

- `Etcd` is the store as a log of mutations. The snapshot of revision `r` is computed from the first `r` mutations, so
  create revisions, stale reads and watches all refer to one history. What is assumed of etcd is in these definitions and
  in `Registry.Enabled`: a put of an absent key sets its create revision, an overwrite keeps it and rebinds the lease; a
  lease expires no earlier than its time to live; a serializable read may be of any earlier revision; a call that reports
  an error may still have been applied; a watch delivers every revision in order.
- `KeyLayout` is the naming of keys; `Election` the decision; `ServiceState` the instance object with its methods.
- `Registry` is the protocol: a label is one atomic step of one instance, of a lease or of the clock, together with the
  environment's answer. `LeaseInvariant`, `Leadership`, `LeaseTiming`, `Recovery`, `Deregistration`, `MasterFlags` and
  `TwoMasters` are about its runs.
- `AddressList`, `DiscoveryCache`, `CacheRefinement`, `RegistryCache`, `DiscoverScan` and `DiscoverMisses` are the cache:
  the list operations, the object, its agreement with the store, with the registry, and a lookup that scans while writers
  write.

**The department tree (`useDepartment.ts`).** `Departments` and `DepartmentRebuild` treat the tree as a value,
`DepartmentObjects` as the shared objects the hook updates in place; its methods are proved to compute the former.

**Form texts (`common.ts`).** `Text` holds the string operations, `AddressText` the lines with remarks, `IpText` and
`PortText` the two grammars, `IpLists` the pasted lists. The library call `isIP` is a pair of unknown predicates.

**Search (`search.ts`).** `SearchQuery` builds the query tree, `QueryMeaning` says what a tree asks of a record for any
server-side comparison, `FilterRules` is the rules properties build themselves, `SearchSelect` the local filter.

**Two asynchronous state machines.** `RequestQueues` and `RequestRuns` (`request-queue.ts`, `http/index.ts`), and
`TimeoutPoll` (`use-timeout-poll.ts`).

**First-match rules (`pkg/cc/types.go`).** `SyncConcurrency`. `Collections` is shared by several modules.

## Where the code does not do what one would expect

Each is a theorem, with the exact condition where there is one.

- Two `isMasterFlag`s can be set at once, since an instance whose key is gone gets an error and keeps its flag: for two
  instances there is such a run exactly when neither has opted out. The first of the two reads is by prefix, so an answer can be
  wrong: exactly when that read's snapshot lacks the key but holds one that extends it. Ids of one length, as UUIDs are,
  never extend one another. A shutdown deletes the key, but it can come back: exactly when a put was still under way with
  a live lease.
- The deletion loop of the cache is right exactly when no two neighbouring entries share the key, which unique keys
  guarantee; the length shortcut of a lookup is right exactly for labels without repetition; the cache differs from the
  store exactly when some key holds bytes that do not decode after a value that did, with no delete in between. The
  comment on `Labels` (pkg/serviced/discovery.go:41) says that all other servers are used if no label matches; the code
  returns none. A lookup can miss an entry that never leaves the list: every entry but the first, and only while another is
  being deleted.
- A rebuilt tree loses the tri-state invariant exactly when a new department arrives at odds with children that are
  there already or come with it; as a rule, together with children under a checked parent.
- `isCIDR` reads the prefix length with `parseInt`, so `10.0.0.0/24abc` passes; `analysisPort` accepts `icmp:1:2`.
- Blank date ranges are meant to be dropped, but only the empty list is, and only by a property that is not searched when
  empty: the branch for ranges converts the bounds one at a time, so `['','']` asks for dates on both sides of the empty
  string. The same branch ignores the old style of rules. A single date is not compared: it is searched with the operator
  that joins rules. Building a query fails when a
  property's own rules have neither a value nor a list; front/src/common/constant.ts:200 declares such rules. A search by
  addresses in which no address parses puts no constraint at all.
- A request that finishes takes every newer request with its id off the queue, so a later cancel misses them: a new
  request survives the end of an earlier one exactly when their ids differ. By default all requests of one method and URL
  share an id.
- A poll is stuck exactly when its only running call has failed with no timer armed and nothing has stopped it since. A
  resume over a call still running, or over a timer still armed, can lead to overlapping calls exactly when the limit
  leaves room for them.

## Model

| member | source | states |
|---|---|---|
| Etcd.CreateRevisionsAreUnique | pkg/serviced/service.go:333-365 | over the whole history one create revision belongs to one key |
| Etcd.SameCreateRevisionIffNeverRemoved | pkg/serviced/service.go:333-365 | a key has the same create revision in two snapshots exactly when it was in the store all the time between |
| Etcd.OwnKeyIsReadFirst | pkg/serviced/service.go:326-333 | the prefix read for the own key returns that key before any key that extends it |
| KeyLayout.PrefixCapturesExactlyExtendedNames | pkg/serviced/types.go:119-128 | a service's path is a prefix of an instance key exactly when its name is a prefix of that service's name, for every uid |
| KeyLayout.KeysInFull | pkg/serviced/types.go:119-128 | the eight declared names, and a key written out |
| KeyLayout.NoServiceCapturesAnother | pkg/cc/service.go:52-69 | among the declared services no path captures another service's keys |
| KeyLayout.KeysAreInjective | pkg/serviced/types.go:119-128 | service and uid can be read off a key |
| KeyLayout.FixedLengthIdsDoNotExtend | pkg/serviced/types.go:77-87 | with uids of one length no instance key extends another |
| Election.ScanFindsTheLeader | pkg/serviced/service.go:348-361 | the scan ends with the create revision of the eligible key created first, or 0 when there is none |
| Election.YesIffFirstWilling | pkg/serviced/service.go:324-366 | with both reads back: yes exactly when the first entry of the second read that decodes and has not opted out, whatever else it publishes, has the create revision of the own entry |
| Election.AnswerIsRight | pkg/serviced/service.go:324-366 | for two reads at any revisions in either order, if the first read's snapshot holds the key or no key extending it: yes exactly when the caller's key leads the snapshot of the second read with the create revision of the first; error exactly when a read failed or was empty |
| Election.AnswerIsRightIff | pkg/serviced/service.go:324-366 | once both reads are back and the second is not empty, the answer is right if and only if the first read's snapshot holds the key, or no key that extends it |
| Election.AtMostOneYesPerSnapshot | pkg/serviced/service.go:324-366 | second reads of one snapshot give yes to at most one key |
| Election.YesMeansNeverRemovedBetweenReads | pkg/serviced/service.go:324-366 | after a yes the key was in the store at every revision between the two reads |
| Election.OptedOutNeverLeads | pkg/serviced/service.go:356-358 | a key whose published value opts out, or does not decode, never gets a yes, from any pair of reads of which the first is unambiguous |
| Election.AnExtendedIdConfusesTheCheck | pkg/serviced/service.go:326-333 | witness: an absent instance gets a yes meant for one whose id extends its own |
| ServiceState.Service.Register | pkg/serviced/service.go:124-168 | succeeds exactly when not registered and both calls succeed, and then holds the granted lease; otherwise nothing changes |
| ServiceState.Service.KeepAliveRound | pkg/serviced/service.go:173-220 | one round confirms, keeps or drops the lease and pauses 5 s or 1 s, for every combination of answers |
| ServiceState.Service.KeepAliveFailed | pkg/serviced/service.go:225-229 | drops flag and lease and pauses 1 s |
| ServiceState.Service.Deregister | pkg/serviced/service.go:232-242 | always stops the loop; clears the flag only if the delete succeeded; what happens to the store is in Deregistration.DeletingRemovesTheKey |
| ServiceState.Service.CheckMaster | pkg/serviced/service.go:324-366 | the loop over the second read computes the decision that Election.YesIffFirstWilling and Election.AnswerIsRight are about |
| ServiceState.Service.SyncMasterState | pkg/serviced/service.go:284-295 | an error leaves the flag as it was and asks for a retry |
| ServiceState.Service.DisableMasterSlave | pkg/serviced/service.go:259-266 | switches only that answer; the flag stays |
| Registry.UuidClustersAreValid | pkg/serviced/types.go:77-87 | instances of the known services with distinct ids of one length have keys that do not extend one another |
| LeaseInvariant.ReachableInv | pkg/serviced/service.go:149-229 | in every reachable state: registered exactly when a lease is held (until shutdown clears the flag), and the stored key is bound to exactly the held lease |
| LeaseInvariant.StepKeepsInv | pkg/serviced/service.go:149-242 | every step of every instance, lease and clock keeps that |
| LeaseInvariant.OldLeasesAreHarmless | pkg/serviced/service.go:181-196 | expiry of a lease no longer held never removes the key, even if a failed put with it was applied |
| LeaseInvariant.LeasesBindOneKey | pkg/serviced/service.go:149-160 | an expiry removes at most one key |
| LeaseInvariant.SnapshotsHoldOwnValues | pkg/serviced/service.go:136-147 | every snapshot of every run holds only the instances' own keys, each with its own value |
| Leadership.StepKeepsLeader | pkg/serviced/service.go:149-196 | whatever the step, a leader whose key stays still leads |
| Leadership.NewLeadersAreAccountedFor | pkg/serviced/service.go:149-196 | a step makes a new leader only by removing the old one's key, or by a registration when nobody was eligible |
| Leadership.RunKeepsLeader | pkg/serviced/service.go:149-242 | over a whole run a leader present throughout stays the leader |
| LeaseTiming.LeadershipSurvivesTransientFailure | pkg/serviced/service.go:170-229 | after one confirmed round, with latency d and at most K failing rounds in a row inside the bound, the key never leaves the store, keeps its create revision, and its leadership |
| LeaseTiming.FourFailuresInARowAreSafe | pkg/serviced/types.go:32-41 | with instantaneous calls no run loses a confirmed key if and only if at most 4 rounds fail in a row |
| LeaseTiming.NoKeyIsLostExactlyWhenSafe | pkg/serviced/service.go:170-229 | no run loses a confirmed key if and only if 5 s + K * 1 s + (K + 2) * d < 10 s |
| LeaseTiming.SlippingLosesTheKey | pkg/serviced/service.go:170-229 | beyond the bound the steady run that loses the key is constructed |
| Recovery.MissingKeyIsNoticed | pkg/serviced/service.go:195-229 | a check that does not find the key drops flag and lease, and the next round is due a second later |
| Recovery.LostKeyComesBack | pkg/serviced/service.go:170-229 | from any state in which a serving instance's loop waits with its key gone, two successful rounds at most put it back, bound to the lease then held |
| Recovery.RoundsMeetAnyAnswer | pkg/serviced/service.go:180-207 | a due round of a serving instance can meet every outcome of its first call |
| Recovery.CallsMeetAnyAnswer | pkg/serviced/service.go:187-213 | a put or renewal under way can be acknowledged, or fail with or without effect, exactly as its lease allows |
| Recovery.ReadsSeeAnyRevision | pkg/serviced/service.go:326-345 | either read of the election check can be of any revision, or fail |
| Deregistration.DeletingRemovesTheKey | pkg/serviced/service.go:232-242 | once the delete has been applied the instance's key is gone, acknowledged or not, and every other key is as before |
| Deregistration.DeregisteredStaysAway | pkg/serviced/service.go:232-242 | and it stays away in every run, if no put was under way |
| Deregistration.ComesBackIffPutUnderWay | pkg/serviced/service.go:149-242 | in any reachable state of a stopping instance whose key is gone, some run stores it again if and only if a put of it was under way with a live lease |
| Deregistration.ShutDownMeansUnregistered | pkg/serviced/service.go:232-242 | in no run is an instance registered once its shutdown has ended |
| Deregistration.StoppingEndsTheLoop | pkg/serviced/service.go:170-176 | a loop stops only for a cancellation, and makes no call in any run after that |
| MasterFlags.SetFlagsWereEarned | pkg/serviced/service.go:284-320 | every run keeps: a set flag stands for a snapshot in which the instance led, and a sync under way holds a create revision its key really had |
| MasterFlags.WhoeverIsMasterHasLed | pkg/serviced/service.go:284-320 | so in every reachable state whoever has the flag set has led its service in some snapshot |
| MasterFlags.OptedOutInstancesNeverLead | pkg/serviced/service.go:356-358 | an instance that disables election never has its flag set, in any run |
| MasterFlags.QuietRunSettles | pkg/serviced/service.go:284-320 | on a quiet store the flag is right whenever the last sync finished is one that began on it, whatever stale syncs were under way |
| MasterFlags.LeadsIffCreatedFirst | pkg/serviced/service.go:348-365 | to lead means, among the instances under the path, to be registered, not opted out, and created before all others of that kind |
| MasterFlags.FlagsConverge | pkg/serviced/service.go:284-320 | once the last sync of each registered instance is one that began on a quiet store, exactly those have their flag set that put their key first among the registered instances of their service that have not opted out; no service has two, and one is there whenever anyone is willing |
| MasterFlags.DisabledNeverAnswersMaster | pkg/serviced/service.go:246-266 | a disabled instance answers as a slave through every run that does not enable it, whatever it syncs |
| MasterFlags.EnabledAgainAnswersRight | pkg/serviced/service.go:246-266 | the syncs go on while disabled, so on a quiet store the answer is right at once when enabled again |
| TwoMasters.TwoFlagsCanBeSetIff | pkg/serviced/service.go:287-294 | some run sets the flags of two instances at once exactly when neither has opted out of election |
| TwoMasters.TwoFlagsCanBeSet | pkg/serviced/service.go:287-294 | the run itself, for any two instances that have not opted out |
| AddressList.SetIsUpdate | pkg/serviced/discovery.go:301-331 | setting keeps keys unique and updates the list, read as a map, at one key |
| AddressList.SkippingIsRemovalIffNoNeighbours | pkg/serviced/discovery.go:338-344 | the loop that removes and then steps on removes every entry of the key exactly when no two of them are neighbours |
| AddressList.RemoveIsMapRemoval | pkg/serviced/discovery.go:334-347 | removal keeps keys unique and drops one key of the map |
| AddressList.HandleAllIsUpdateAll | pkg/serviced/discovery.go:278-296 | any sequence of events keeps keys unique and acts on the map event by event |
| AddressList.SurvivorsKeepTheirOrder | pkg/serviced/discovery.go:301-347 | after any events the list is in the order of each key's first set since its last delete |
| DiscoveryCache.Discovery.SetAddress | pkg/serviced/discovery.go:301-331 | overwrites the first entry of the key in place, or appends; other services' lists stay |
| DiscoveryCache.Discovery.DelAddress | pkg/serviced/discovery.go:334-347 | the in-place loop computes the skipping removal; other services' lists stay |
| DiscoveryCache.Discovery.LoadSnapshot | pkg/serviced/discovery.go:262-272 | sets every entry of the first read that decodes, in order |
| DiscoveryCache.Discovery.HandleResponse | pkg/serviced/discovery.go:278-296 | applies the events of one watch response in order, skipping puts that do not decode |
| DiscoveryCache.Discovery.DiscoverByLabels | pkg/serviced/discovery.go:192-238 | unknown services are refused; otherwise the loop computes the ordered filter of DiscoveryCache.PickIsTheWantedFilter |
| DiscoveryCache.Discovery.Keeps | pkg/serviced/discovery.go:212-235 | the four tests on one entry |
| DiscoveryCache.LengthTestIsExactIffNoDuplicates | pkg/serviced/discovery.go:222-224 | the length shortcut agrees with the subset test for every entry exactly when the requested labels do not repeat |
| DiscoveryCache.PickIsTheWantedFilter | pkg/serviced/discovery.go:211-235 | for such labels a lookup returns, in order, the addresses of the same environment whose labels include the requested ones, and unlabelled ones only to unlabelled requests |
| DiscoveryCache.NothingFoundIff | pkg/serviced/discovery.go:209-237 | a lookup is empty exactly when no entry passes: nothing else is tried |
| DiscoveryCache.UnmatchedLabelsFindNothing | pkg/serviced/discovery.go:225-232 | when every server lacks a requested label the lookup is empty, against the comment in line 41 |
| DiscoveryCache.OtherServersAreNotUsed | pkg/serviced/discovery.go:225-232 | witness: a labelled server of the right environment, and an empty lookup |
| DiscoveryCache.Pigeonhole | pkg/serviced/discovery.go:222-224 | a list names as many labels as it is long exactly when it repeats none |
| CacheRefinement.CacheFollowsStore | pkg/serviced/discovery.go:250-298 | at every revision the cache has only stored keys, and the current value of each that decodes |
| CacheRefinement.CacheHoldsTheSeen | pkg/serviced/discovery.go:250-298 | the cache has a key exactly when a decodable value of it was read or put and the key not deleted since |
| CacheRefinement.CacheIsTheStoreIffNothingStale | pkg/serviced/discovery.go:283-287 | it is exactly the decoded store unless the log holds an undecodable put of a key after a decodable value with no delete in between |
| CacheRefinement.AnOverwrittenRegistrationIsStale | pkg/serviced/discovery.go:283-287 | witness: two puts of one key, the second undecodable |
| CacheRefinement.CacheRefinesStore | pkg/serviced/discovery.go:250-298 | with decodable puts the cache at revision N is the decoded store at N: no gap and no overlap at Revision+1 |
| CacheRefinement.WithoutSnapshotOldKeysAreMissed | pkg/serviced/discovery.go:256-275 | after a failed first read, whatever is stored, the cache has exactly the keys put with a decodable value and not deleted since the watch began, each stored and current if its value decodes |
| RegistryCache.CacheListsTheRegisteredInstances | pkg/serviced/discovery.go:250-347 | in every run of the registry the cache of a service lists exactly its stored instances, each with the address, labels, environment and election setting it published |
| RegistryCache.LookupsReturnTheRegisteredInstances | pkg/serviced/discovery.go:192-298 | in every run a lookup returns the addresses of exactly the stored instances of the service in its environment with the requested labels, each once, in the order of first put since last removal |
| DiscoverScan.WritersPerformTheListOperations | pkg/serviced/discovery.go:305-346 | the entry-by-entry writes of set and delete end in the list operations |
| DiscoverScan.LookupsReturnLiveAddresses | pkg/serviced/discovery.go:205-235 | under any interleaving every address returned belongs to a matching entry that was in the list, or being added, during the call |
| DiscoverScan.WithoutDeletionNothingIsMissed | pkg/serviced/discovery.go:205-235 | without a deletion a finished scan has read every entry that was in the list throughout, whatever is overwritten, appended or moved |
| DiscoverMisses.CanMissIff | pkg/serviced/discovery.go:205-235 | of any list with unique keys, a lookup that starts now can miss an entry that stays in the list throughout if and only if it is not the first |
| DiscoverMisses.LaterEntriesAreMissed | pkg/serviced/discovery.go:334-347 | from a scan that has passed i entries: deleting the first one and adding it again hides the entry at i |
| Departments.MarkOneMore | front/src/hooks/useDepartment.ts:84-94 | the downward recursion step by step marks exactly the open subtree |
| Departments.ToggleKeepsTriState | front/src/hooks/useDepartment.ts:84-114 | marking a department down and recomputing its ancestors keeps the tri-state invariant of any tree |
| Departments.ToggleIsLocal | front/src/hooks/useDepartment.ts:84-114 | it touches only the subtree, which gets the mark, and the ancestors |
| Departments.MarksTellOfChecks | front/src/hooks/useDepartment.ts:116-138 | a department has a mark exactly when something at or below it is checked |
| Departments.MarksCountLeaves | front/src/hooks/useDepartment.ts:84-125 | a department is checked exactly when every leaf at or below it is, and half exactly when some but not all are |
| Departments.LastMarkedDecides | front/src/hooks/useDepartment.ts:127-138 | of several departments with a mark the last one decides what is shown |
| Departments.SelectionIsATopmostChecked | front/src/hooks/useDepartment.ts:127-138 | the selection is at most one id, checked with no checked ancestor, and empty exactly when nothing is checked |
| DepartmentRebuild.SelectingShowsTheDepartmentOrAnAncestor | front/src/components/OrganizationSelect/index.tsx:78-100 | whatever the marks were, after a click they agree, and the department or an ancestor is shown; after clearing, nothing |
| DepartmentRebuild.RebuildKeepsTriStateIff | front/src/hooks/useDepartment.ts:28-59 | a rebuild from a grown store keeps the invariant exactly when no new department arrives at odds with the marks of its children |
| DepartmentRebuild.ArrivingTogetherUnderACheck | front/src/hooks/useDepartment.ts:31-48 | where no parent was missing that means arriving together with children under a checked parent |
| DepartmentRebuild.ArrivingTwoLevelsBreaksTriState | front/src/hooks/useDepartment.ts:31-48 | witness: a checked root whose child and grandchild arrive in one rebuild; the child takes the check, the grandchild does not |
| DepartmentRebuild.ChildrenInStoreOrder | front/src/hooks/useDepartment.ts:50-59 | a department gets its children in the order of the store, each once |
| DepartmentRebuild.ChildrenAreExact | front/src/hooks/useDepartment.ts:50-59 | namely exactly the stored departments that name it as their parent |
| DepartmentObjects.DepartmentHook.UpdateDepartment | front/src/hooks/useDepartment.ts:71-76 | changes the marks of one shared object and of nothing else; an unknown id changes nothing |
| DepartmentObjects.DepartmentHook.RecursionCheckChildDept | front/src/hooks/useDepartment.ts:84-94 | the recursion over shared objects marks the open subtrees of the list |
| DepartmentObjects.DepartmentHook.RecursionCheckParentDept | front/src/hooks/useDepartment.ts:96-114 | terminates and recomputes the ancestors |
| DepartmentObjects.DepartmentHook.CountsAsHalf | front/src/hooks/useDepartment.ts:116-125 | counting decides "some but not all checked, or some half" |
| DepartmentObjects.DepartmentHook.HandleCheck | front/src/components/OrganizationSelect/index.tsx:78-96 | a click computes the selection of DepartmentRebuild.SelectingShowsTheDepartmentOrAnAncestor |
| DepartmentObjects.DepartmentHook.GetCheckedDept | front/src/hooks/useDepartment.ts:127-138 | the reduce computes the selection shown |
| DepartmentObjects.DepartmentHook.GenerateDeptTreeMap | front/src/hooks/useDepartment.ts:28-59 | builds fresh shared objects whose tree is the rebuilt one |
| AddressText.RenderedTextIsReadBack | front/src/utils/common.ts:100-115 | a text written from accepted entries with remarks is analysed back into exactly these entries |
| AddressText.AnalysisIsStable | front/src/utils/common.ts:100-115 | analysing any text, writing the entries out and analysing again changes nothing |
| AddressText.CountIsExact | front/src/utils/common.ts:117-124 | comparing counts decides whether every non-blank line is accepted |
| IpText.AnalysisIP | front/src/utils/common.ts:100-115 | the loop returns one entry for each line whose first word is accepted, in order |
| IpText.IsIpsValid | front/src/utils/common.ts:117-124 | true exactly when every non-blank line starts with an address, prefix or range, or a lenient prefix |
| IpText.Library.AcceptedIsNotationOrLenient | front/src/utils/common.ts:126-154 | accepted are exactly single addresses, prefix notation (section 3.1 of RFC 4632, section 2.3 of RFC 4291), ranges of one version, and lenient prefixes |
| IpText.AddressCheckIsExactIff | front/src/utils/common.ts:130-145 | check and grammar agree on a word exactly when what follows its slash is no lenient prefix |
| IpText.FittingReadings | front/src/utils/common.ts:136-143 | a fitting length is read exactly off texts that begin with white space, a sign and digits of fitting value |
| Text.SignsAreRead | front/src/utils/common.ts:136-143 | one sign in front of the digits is read, with white space before it or not, and two are not |
| IpText.JunkAfterThePrefixIsAccepted | front/src/utils/common.ts:136-138 | any junk after a fitting length is accepted and is not prefix notation |
| IpText.DecimalPrefixes | front/src/utils/common.ts:130-145 | a decimal prefix length passes up to 32 for version 4 and up to 128 for version 6 |
| IpText.RangesAreOfOneVersion | front/src/utils/common.ts:147-154 | two texts with a hyphen between pass exactly when they are addresses of one version, in whatever order |
| IpLists.SplitIP | front/src/utils/common.ts:54-64 | the loop returns the trimmed non-blank pieces in order |
| IpLists.OuterTrimIsRedundant | front/src/utils/common.ts:56-58 | trimming the whole text first never shows, though line breaks are separators too |
| IpLists.JoinedItemsAreListed | front/src/utils/common.ts:54-64 | any list of clean items joined by any of the six separators is read back |
| IpLists.TwoItemsIffSeparated | front/src/utils/common.ts:54-64 | a character between two texts makes two items of them if and only if it is a line break, semicolon, comma or bar, ASCII or full-width |
| IpLists.ItemsInTextOrder | front/src/utils/common.ts:54-88 | one more item adds behind, in the list and among the addresses of its version |
| IpLists.ListedAreClean | front/src/utils/common.ts:54-64 | no item has a separator, white space around it, or is blank |
| IpLists.ParseIP | front/src/utils/common.ts:71-88 | the items by version in text order, version 4 first asked |
| IpLists.VersionsPartition | front/src/utils/common.ts:76-82 | no address is lost or listed more often than given |
| PortText.AnalysisPort | front/src/utils/common.ts:161-220 | the loop returns one entry for each line whose first word is accepted, in order |
| PortText.IsPortValid | front/src/utils/common.ts:221-229 | true exactly when every non-blank line starts with a word of the grammar, or a special protocol with two colons or more |
| PortText.AcceptedPortsAre | front/src/utils/common.ts:163-217 | accepted are exactly protocol and ports, bare special protocols, and special protocols with two colons or more |
| PortText.PortCheckIsExactIff | front/src/utils/common.ts:197-216 | check and grammar agree on a word exactly when it is not of the last kind |
| PortText.SpecialProtocolsTakeColons | front/src/utils/common.ts:209-212 | words of that kind are accepted and are not in the grammar |
| PortText.PortsAgree | front/src/utils/common.ts:163-186 | ports are a comma list of one or more, a range, or all |
| PortText.DecimalPorts | front/src/utils/common.ts:163-171 | decimal notation passes for exactly the numbers 1 to 65535 |
| PortText.RangesTakeAnyOrder | front/src/utils/common.ts:179-186 | any two decimal ports make a range, also from the greater to the smaller |
| PortText.ProtocolsWithPorts | front/src/utils/common.ts:197-208 | a decimal port passes after exactly tcp, TCP, udp and UDP |
| PortText.ProtocolsWithoutPorts | front/src/utils/common.ts:209-212 | without a colon exactly icmp, ICMP, gre and GRE pass |
| PortText.AllIsTheOnlyWord | front/src/utils/common.ts:163-208 | without a digit exactly all and ALL stand for ports |
| SearchQuery.TransformSimpleCondition | front/src/utils/search.ts:117-159 | the loop pushes one rule per searched field, in order, or fails where the source throws |
| QueryMeaning.QueryMeansConjunction | front/src/utils/search.ts:117-159 | for any record and any server comparison the query answers the conjunction of the intended tests of the known, filled-in fields |
| QueryMeaning.FieldRuleMeans | front/src/utils/search.ts:58-159 | one field: own rules, closed date range, or operator test; nothing added means the test holds anyway |
| QueryMeaning.LeftOutIff | front/src/utils/search.ts:100-131 | a field whose property has no rules of its own is left out exactly when the property is unknown, or the value is null, undefined, empty text or empty list and the property is not searched when empty |
| QueryMeaning.OneValueAsksEquality | front/src/utils/search.ts:30-60 | one value of any kind but a date or JSON asks for equality with it, numbers and businesses converted |
| QueryMeaning.SeveralValuesAsk | front/src/utils/search.ts:30-60 | a list offers alternatives, except for texts, numbers, flags and certificate authorities, which are compared with it as a whole |
| QueryMeaning.JsonAndSingleDatesAsk | front/src/utils/search.ts:30-60 | JSON is compared as JSON; a single date is searched with the operator that joins rules |
| QueryMeaning.ConfiguredOperatorsDecide | front/src/utils/search.ts:32-49 | a configured operator is used for every kind but dates, the property's own before that of its search options |
| QueryMeaning.TwoDatesAskTheRange | front/src/utils/search.ts:143-152 | two dates ask for not before the first and not after the second |
| QueryMeaning.TheFirstPropertyCounts | front/src/model/utils.ts:3-18 | of several properties with one id the first counts |
| QueryMeaning.RulesFollowTheFields | front/src/utils/search.ts:126-155 | the rules of the first part of a condition come first, in the order of its fields |
| QueryMeaning.ScalarUnderInIsEquality | front/src/utils/search.ts:93-95 | one value under `in` is equality |
| QueryMeaning.ConvertedIsOneOf | front/src/utils/search.ts:76-97 | several values under `in` are alternatives, under `json_overlaps` a common element, numbers converted |
| QueryMeaning.FieldOrderIsIrrelevant | front/src/utils/search.ts:126-156 | conditions with the same fields ask the same, in any order |
| QueryMeaning.FailsExactlyWithoutRules | front/src/utils/search.ts:133-141 | building fails exactly when some searched field's own rules have no list and a value that is undefined, null, NaN, false, zero or empty text |
| QueryMeaning.BlankDateRangeAsksNothingIff | front/src/utils/search.ts:129-151 | of the blank date ranges exactly the empty list asks for nothing, and only of a property not searched when empty |
| QueryMeaning.BlankDateRangeStillConstrains | front/src/utils/search.ts:86-91 | a blank range converts to nothing as a whole, yet the query still compares with the empty string on both sides |
| QueryMeaning.LegacyStyleIff | front/src/utils/search.ts:143-155 | an old-style query is old-style throughout exactly without date ranges and modern own rules |
| FilterRules.SearchSelectMeansSomeValue | front/src/utils/search.ts:348-357 | several values are alternatives under any operator, one value stands for itself |
| FilterRules.BuildIPFilterRules | front/src/utils/search.ts:364-397 | the loop builds one overlap rule per version that has addresses, each address once |
| FilterRules.BuildVIPFilterRules | front/src/utils/search.ts:404-410 | the rules of both networks as alternatives |
| FilterRules.GatheredMembers | front/src/utils/search.ts:366-379 | the gathered set holds each given address of the version once and nothing else |
| FilterRules.LaterAddressesComeLater | front/src/utils/search.ts:366-379 | addresses are gathered in order of first appearance |
| FilterRules.VipSearchFindsTheGiven | front/src/utils/search.ts:364-410 | the search finds exactly the records with a given address of either version in the field of that version of the private or the public network |
| FilterRules.NoAddressMeansNoConstraint | front/src/utils/search.ts:135-139 | the search is left out exactly when no given text is an address |
| SearchSelect.GetSimpleConditionBySearchSelect | front/src/utils/search.ts:183-201 | the grouped condition has exactly the mentioned ids, each with all its values in order |
| SearchSelect.GroupHoldsTheAsked | front/src/utils/search.ts:194-199 | a group holds exactly the values some entry asks for in its field |
| SearchSelect.ValuesInOrder | front/src/utils/search.ts:194-199 | the values of a field stand in the order of the entries |
| SearchSelect.ValuesOfOneEntry | front/src/utils/search.ts:194-199 | and within an entry in its own order, each formatted |
| SearchSelect.LocalFilter | front/src/utils/search.ts:204-228 | an item passes exactly when every mentioned field's group accepts it |
| SearchSelect.FilterMeans | front/src/utils/search.ts:204-228 | that is: every mentioned field's own checker consents to all its values, or, without one, some asked value of any entry occurs |
| SearchSelect.IncludesIsSubstring | front/src/utils/search.ts:217-226 | a value occurs in a text when the text is that value with something, or nothing, around it |
| SearchSelect.EntryOrderIsIrrelevant | front/src/utils/search.ts:194-199 | order, repetition and splitting of entries make no difference, as long as checkers are shown the same list |
| RequestQueues.GetFindsTheId | front/src/http/request-queue.ts:20-25 | what the filtering loop finds: each request of the id as often as it is queued, nothing else, in queue order |
| RequestQueues.RequestQueue.Set | front/src/http/request-queue.ts:32-37 | appends, also when the id is there already |
| RequestQueues.DeleteKeepsTheOthers | front/src/http/request-queue.ts:44-51 | what the filtering loop leaves: every other request as often as it was queued, none of the id, in queue order |
| RequestQueues.RequestQueue.Cancel | front/src/http/request-queue.ts:61-89 | removes the cancelled ids in one pass of the loop and calls each executor as often as the request is in the list to cancel, with its own message |
| RequestQueues.CancelLeavesTheOthers | front/src/http/request-queue.ts:61-85 | after a cancel none of the given ids is left and all others are, in order |
| RequestQueues.CancelledOnce | front/src/http/request-queue.ts:61-85 | with distinct ids each cancelled request's executor is called exactly once, with the message, a colon and the id |
| RequestQueues.CancelledAsOftenAsGiven | front/src/http/request-queue.ts:65-71 | an id given n times calls the executors of its requests n times |
| RequestRuns.QueueIsExact | front/src/http/index.ts:142-185 | over every interleaving a request is queued exactly when no step since its start has deleted its id |
| RequestRuns.QueuedAreInFlight | front/src/http/index.ts:159-180 | every queued request is still in flight |
| RequestRuns.InFlightIsExact | front/src/http/index.ts:159-180 | in flight means started and not finished since |
| RequestRuns.CancelReachesTheQueuedOnce | front/src/http/request-queue.ts:61-89 | in every run a cancel by distinct ids reaches each queued request of them once and leaves none |
| RequestRuns.AloneOnlyOwnEndsCount | front/src/http/index.ts:175-177 | when requests of one id never overlap, a request in flight leaves the queue only by a cancel or its own failure |
| RequestRuns.NewRequestSurvivesIff | front/src/http/index.ts:175-177 | after any run a request started beside one in flight stays queued past that one's end if and only if their ids differ |
| RequestRuns.FinishingDropsTheNewerRequest | front/src/http/index.ts:175-177 | witness: nobody cancelled or refused the newer request, and a cancel of its id no longer reaches it |
| TimeoutPoll.Poll.constructor | front/src/hooks/use-timeout-poll.ts:11-17 | starts idle, or with a first call when immediate |
| TimeoutPoll.Poll.TimerFires | front/src/hooks/use-timeout-poll.ts:28-47 | the callback clears the handle and begins a call exactly when active and without a limit or below it |
| TimeoutPoll.Poll.CallEnds | front/src/hooks/use-timeout-poll.ts:45-46 | a finished call re-arms the timer, a failed one does not |
| TimeoutPoll.Poll.ResumeIt | front/src/hooks/use-timeout-poll.ts:49-54 | has no effect on an active poll; an inactive one arms a timer, or calls at once when immediate and below the limit |
| TimeoutPoll.Poll.PauseIt | front/src/hooks/use-timeout-poll.ts:56-58 | deactivates and leaves timer, count and running calls alone |
| TimeoutPoll.Poll.ResetIt | front/src/hooks/use-timeout-poll.ts:60-64 | disarms, deactivates and sets the count to zero |
| TimeoutPoll.AtMostOneTimer | front/src/hooks/use-timeout-poll.ts:19-33 | in every run at most one timer is armed, and it is the one the handle names |
| TimeoutPoll.ResetLeavesNothingArmed | front/src/hooks/use-timeout-poll.ts:60-64 | after a reset in any run no timer is armed and only calls already running are left |
| TimeoutPoll.TimesCountsTheCalls | front/src/hooks/use-timeout-poll.ts:35-47 | the counter is the number of calls begun since the last reset, never above the limit |
| TimeoutPoll.FiringBeginsACall | front/src/hooks/use-timeout-poll.ts:35-47 | a timer that fires on an active poll begins a call exactly while fewer than the limit have begun since the last reset |
| TimeoutPoll.CallsBeginOnlyWhileRunning | front/src/hooks/use-timeout-poll.ts:35-58 | no call begins between a pause or reset and the next resume |
| TimeoutPoll.ActiveMeansRunning | front/src/hooks/use-timeout-poll.ts:49-64 | the flag says exactly that the last of resume, pause and reset was a resume |
| TimeoutPoll.PollingGoesOn | front/src/hooks/use-timeout-poll.ts:26-47 | while active, with fewer calls since the last reset than the limit, and without a failed call, there is always a timer armed or a call running |
| TimeoutPoll.StuckIff | front/src/hooks/use-timeout-poll.ts:35-54 | after any run a poll is active with calls left and nothing armed or running if and only if at some step its only running call failed with no timer armed and calls left, and nothing has stopped it since |
| TimeoutPoll.AFailedCallStopsPolling | front/src/hooks/use-timeout-poll.ts:45-46 | if every resume finds nothing running, and nothing armed when it calls at once, one failed call of a running poll leaves it active with nothing armed or running |
| TimeoutPoll.StuckUntilStopped | front/src/hooks/use-timeout-poll.ts:49-54 | from there nothing but a pause or reset has any effect |
| TimeoutPoll.CallsDoNotOverlap | front/src/hooks/use-timeout-poll.ts:35-54 | if no effective resume finds a call running, or a timer armed when it calls at once, with room for one more call under the limit, calls never overlap |
| TimeoutPoll.UnquietResumeOverlaps | front/src/hooks/use-timeout-poll.ts:49-54 | any other effective resume has a continuation with two calls running |
| TimeoutPoll.ResumeIsHarmlessIff | front/src/hooks/use-timeout-poll.ts:49-54 | after a run of harmless resumes, one more keeps calls apart up to the next in every continuation if and only if it is harmless too |
| SyncConcurrency.SyncConfig.TrySetDefault | pkg/cc/types.go:1063-1074 | fills in the default, and each rule's pieces and listing number, in place |
| SyncConcurrency.SyncConfig.Validate | pkg/cc/types.go:1077-1087 | passes exactly when the default is set and every rule is complete |
| SyncConcurrency.SyncConfig.GetSyncConcurrent | pkg/cc/types.go:1090-1099 | the loop computes the answer SyncConcurrency.FirstMatchDecides is about |
| SyncConcurrency.ValidateRule | pkg/cc/types.go:1157-1181 | passes exactly complete rules; the number of tasks is complained about only when all else is right |
| SyncConcurrency.FirstMatchDecides | pkg/cc/types.go:1089-1099 | the answer is that of the matching rule with no matching rule before it, else the default twice |
| SyncConcurrency.FirstMatchAnswersAsConfigured | pkg/cc/types.go:1063-1099 | of a file as read, the answer is the numbers of the first rule that matches, a listing number not given being the number of synchronising tasks |
| SyncConcurrency.AnswersArePositive | pkg/cc/types.go:1077-1099 | after a successful validation every query gets positive numbers |
| SyncConcurrency.ConfigurationPassesIff | pkg/cc/types.go:1063-1181 | with the defaults set the rules of a file pass if and only if each has three non-empty pieces and a number of tasks, and every query then gets positive numbers |
| SyncConcurrency.RuleTextMeans | pkg/cc/types.go:1122-1154 | the text vendor/resource/region, whatever follows it, matches componentwise, `*` matching anything |
| SyncConcurrency.DeletingACoveredRule | pkg/cc/types.go:1089-1099 | deleting a rule covered by an earlier one changes no answer |
| SyncConcurrency.NeverDecidesIffCovered | pkg/cc/types.go:1089-1136 | a rule never decides any query exactly when one single earlier rule covers it |

## Left out

- A second `Register` after a failed keep-alive: the program registers once, and a second loop would blur who holds the lease.
- A put applied after its error was reported; in the model it is applied by then or never.
- Compaction of the watch, its closing and reopening: a watch delivers every revision once, in order.
- Field tearing within an address entry: entries are read and written whole (an instance always puts the same value for its key).
- The instance flags' locks, beyond each labelled step being atomic; real clocks, which are one non-decreasing time.
- JSON encoding: a stored value either decodes to its server information or does not.
- LeaseTiming.LeadershipSurvivesTransientFailure: latency is per round, from the moment it is due to its end; a run in which the instance is shut down or exceeds the latency is not covered.
- `ByLabels`, `GetServiceAllNodeKeys`, `Services` and `Healthz`: wrappers and plain reads.
- `expandDepartment` and `patchUpdateDepartment`: network, and one more use of the update that is modelled; `isOpen` and `async` marks are display only.
- DepartmentRebuild.RebuildKeepsTriStateIff: assumes the grown store is a forest whose stored parents may have children, and still has the old departments under the same parents; a store that moves departments is not covered.
- IpText.IsIpsValid: assumes of the library that no string is an address of both versions and that neither the empty string nor a string with a slash is one.
- Numbers above the exact range of floating point in `parseInt`: they exceed every limit compared with.
- `localSort`, `localPaginate`, `enableCount`, date ranges and shortcuts, `transformFlatCondition`, `buildMultipleValueRulesItem`: no property beyond reading one body; `localeCompare` is library behaviour.
- The request cache, messages and login handling of `http/index.ts`; an executor that throws.
- The exact scheduling of promise callbacks: RequestRuns and TimeoutPoll allow every order, so also some the runtime cannot produce.
- The rest of `pkg/cc`, `pkg/async`, `pkg/rest`, the proxies, cloud adaptors and views.
