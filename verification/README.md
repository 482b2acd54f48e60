# Verified models of the game server core

Dafny 4.11 models of the parts of the server whose correctness is not visible from any
single function, and proofs of what they promise. `dafny verify dfyconfig.toml` checks all
of it. Code that works by changing things step by step is modelled by methods, loops and
classes proved against specification functions; concurrent code by state machines whose
steps are the locked sections or atomic actions, with the proofs quantifying over all
interleavings.

| part | files |
|---|---|
| Text filter | `TextFilterSpec`, `TextFilterAutomaton`, `TextFilter` |
| Plugin loading | `PluginGraph`, `PluginResolve`, `PluginLoader`, `StringOrder` |
| Permissions | `PermissionNode`, `PermissionResolve`, `PermissionStore`, `PermissionCache`, `PermissionService`, `Decimal` |
| Wire format | `Octets`, `Frames`, `Payload`, `Rc4`, `ModularPower`, `Rsa`, `RsaInverse`, `Channel`, `SecureStream`, `SecuritySwitch` |
| WebSocket transport | `SocketReader`, `SocketWriter` |
| Plugin interceptors | `Interceptor` |
| Connection sessions | `SessionLifecycle` |
| Packet traces | `TraceLog` |

`Wrappers` holds the option and result types.

## Results worth knowing

- The Aho-Corasick automaton is exactly naive substring search over normalised text, follows
  at most one failure link per letter read, and its `target != child` test is never false.
- Plugin resolution returns exactly the plugins whose dependency closure is present, unique
  and acyclic; its final filter never removes anything.
- Reading permissions through the cache equals reading the store after any sequence of
  service calls and expiries.
- A direct grant of the node asked for decides a permission check; otherwise the heaviest of
  the player's groups with any matching grant on its chain does. What a grant or revoke
  changes is stated on the stored tables and through to the next answer of `HasPermission`.
- Plugins load in byte order of their names but for dependencies.
- With any number of key exchanges a client that authenticates gets to Connected with every
  step accepted, and an active trace can always be finalized, no line being left behind.
- A secure-channel negotiation with a client that follows the protocol completes exactly when
  the client's public number is in range and the shared key is not empty, and then both sides
  hold the same key.
- A packet stream framed, sealed, cut anywhere, opened and decoded comes back unchanged, and
  the RSA round trip is proved down to Fermat's little theorem. Frames, payload values, RC4,
  RSA and the key agreement are also stated apart from their definitions: by the octets of
  each field, by table entries, and as congruences of plain powers.

Where a natural claim does not hold of the code, the exact condition is proved instead:

- Packet payloads alias the read buffer (`networking/codec/frame.go:34-38`) and
  `pkg/http/websocket/reader.go:53` overwrites it before dispatch. A frame layout guarantees
  right dispatch exactly when the leftover does not reach into a payload;
  `SevenOctetLeftoverFails` gives the smallest failing message.
- Censored text can match again: exactly when a pattern is spelled by uncensored letters that
  straddle a starred part.
- Decoded packet values can be encoded again exactly when every field after them is optional;
  a definition guarantees that exactly when, up to the first field of an unknown kind, only
  optional fields follow an optional one.
- `CompleteSecurity` queues the completion packet and the activation one after the other. A
  client that switches right behind the completion packet reads everything exactly when
  nothing, such as a heartbeat ping, is written in between, and the server understands such
  a client exactly when nothing from it arrives before the activation is handled (unless the
  key octets concerned are all zero).
- A native handler behind a plugin interceptor runs at most once exactly under the
  assumption that the goroutine that wins the swap passes a context derived from the
  callback's; without it `Interceptor.Race` runs it twice. After a failure it has not run at
  all exactly when the host had seen a winner and that winner was refused by its own expired
  context.
- After a disconnection exactly the packets that had passed both looks at the session are
  still handled, sent or observed, as far as their own calls succeed.
- Creating a group keeps the permission cache right exactly when that group was not cached as
  missing.
- State Authenticated comes without the authenticated flag exactly after a raw transition,
  and Closed is left exactly by a `Disconnect` of a session closed by raw transitions.
- A trace file that began with an empty list holds exactly `Count` lines exactly when no
  append failed; a failed cleanup leaves its lines for the next trace.

## Model

| member | source | states |
|---|---|---|
| TextFilterSpec.LongestSuffixIsLongest | pkg/textfilter/automaton.go:63-86 | The specified state of a text is the longest of its suffixes that spells a path of the trie: it is one, and every other one is a suffix of it. |
| TextFilterSpec.ExtendSuffix | pkg/textfilter/automaton.go:89-101 | Reading one more rune depends on the text only through that longest suffix, so one state is all the memory the automaton needs. |
| TextFilterSpec.FailureStep | pkg/textfilter/automaton.go:73-82 | When a path has no child on a rune, its failure path decides the next state. |
| TextFilterSpec.OutputsExact | pkg/textfilter/automaton.go:81-82 | The outputs merged along failure links are exactly the lengths of all patterns that are suffixes of the path. |
| TextFilterSpec.OutputsBounded | pkg/textfilter/automaton.go:81-82 | They are positive, no longer than the path, and strictly decreasing, so no length is listed twice. |
| TextFilterSpec.OutputsSeeWholeText | pkg/textfilter/automaton.go:81-82 | The outputs of the longest suffix of a text are exactly the lengths of all patterns that end the whole text. |
| TextFilterSpec.StepsPaidByDepth | pkg/textfilter/automaton.go:89-101 | One transition follows at most as many failure links as it loses depth, plus one. |
| TextFilterSpec.TotalStepsLinear | pkg/textfilter/automaton.go:89-101 | Over any whole text the failure links followed, plus the final depth, are at most the letters and numbers read. |
| TextFilterAutomaton.TrieGrows | pkg/textfilter/automaton.go:47-55 | Adding one edge to a fresh node keeps the nodes in one-to-one correspondence with a prefix-closed set of paths. |
| TextFilterAutomaton.ShallowQueued | pkg/textfilter/automaton.go:63-72 | When the breadth-first pass takes a state off the queue, every state that is no deeper has already been queued. |
| TextFilterAutomaton.SweepStep | pkg/textfilter/automaton.go:68-83 | Linking and queueing one child keeps the invariant of the pass: queued states are finished and in depth order, all others untouched. |
| TextFilterAutomaton.Matcher.Insert | pkg/textfilter/automaton.go:45-60 | Inserting a pattern adds exactly its prefixes to the trie and exactly its length to the outputs of its last node. |
| TextFilterAutomaton.Matcher.Fallback | pkg/textfilter/automaton.go:73-79 | The failure walk ends, strictly above its start, at the state from which the longest proper suffix of the child is reached. |
| TextFilterAutomaton.Matcher.Link | pkg/textfilter/automaton.go:71-83 | A child gets the node of its longest proper suffix and all outputs due to it, and no other node changes; the test target != child always holds. |
| TextFilterAutomaton.Matcher.Failures | pkg/textfilter/automaton.go:63-86 | Whatever order the transition maps are iterated in, the pass terminates with every node's failure link and outputs as specified. |
| TextFilterAutomaton.Matcher.Compile | pkg/textfilter/automaton.go:24-42 | Compiling any word list yields a finished automaton for exactly the non-empty normalised words. |
| TextFilterAutomaton.Matcher.Next | pkg/textfilter/automaton.go:89-101 | One step leads to the node of the longest suffix of the extended path, following exactly the specified number of failure links. |
| TextFilterAutomaton.FailureMeaning | pkg/textfilter/automaton.go:73-80 | The failure link of a finished node is a proper suffix of its path in the trie, and every other such suffix is a suffix of it. |
| TextFilterAutomaton.OutputsMeaning | pkg/textfilter/automaton.go:81-82 | The outputs of a finished node are the lengths of all patterns that are suffixes of its path, without repeats. |
| TextFilter.FoldedIsNormalize | pkg/textfilter/automaton.go:104-113 | The letters Contains and Censor see rune by rune are the normalised text. |
| TextFilterSpec.NormalizeJoins | pkg/textfilter/automaton.go:104-113 | Normalising a text is normalising its parts. |
| TextFilterSpec.NormalizeOne | pkg/textfilter/automaton.go:104-113 | A letter or number becomes its lower case and any other rune disappears. |
| TextFilter.ContainsStep | pkg/textfilter/filter.go:16-24 | A text extended by one letter contains a pattern exactly when it did before or some pattern ends at the new letter. |
| TextFilter.Contains | pkg/textfilter/filter.go:11-27 | A finished automaton finds a match exactly when some pattern is a contiguous substring of the normalised text, within as many failure steps as letters. |
| TextFilter.CoveredStep | pkg/textfilter/filter.go:43-48 | A letter lies in an occurrence of the extended text exactly when it did before or lies in a pattern that ends at the new letter. |
| TextFilter.RingSlot | pkg/textfilter/filter.go:42-46 | Two letters less than the ring size apart never share a slot. |
| TextFilter.RingStored | pkg/textfilter/filter.go:42-46 | Storing an offset keeps the last maxPattern offsets readable in the ring. |
| TextFilter.MarkMatch | pkg/textfilter/filter.go:44-47 | Marking one match through the ring masks exactly the letters of that match, at their own byte offsets. |
| TextFilter.Mask | pkg/textfilter/filter.go:34-50 | The mask is set at the byte offset of a letter exactly when that letter lies in some occurrence. |
| TextFilter.Render | pkg/textfilter/filter.go:51-63 | Writing the text out stars the masked letters and copies every other rune with its bytes. |
| TextFilter.StarIsAscii | pkg/textfilter/filter.go:56 | The star is the one-byte asterisk. |
| TextFilter.Censor | pkg/textfilter/filter.go:30-64 | Censor stars a letter or number exactly when it lies in an occurrence of a pattern, changes nothing else, and reports true exactly when Contains does. |
| TextFilter.ContainsWords | pkg/textfilter/filter.go:67-69 | For every word list and text the one-shot search equals naive substring search over normalised text. |
| TextFilter.CensorWords | pkg/textfilter/filter.go:72-74 | The one-shot form censors exactly the occurrences of the normalised words. |
| TextFilter.CensoredNormalizes | pkg/textfilter/filter.go:51-63 | Censored text normalises to the letters of the normalised text that lie in no occurrence of a pattern, in order. |
| TextFilter.MatchesAgain | pkg/textfilter/filter.go:51-63 | Censored text matches again exactly when some pattern of at least two letters is spelled by letters in no occurrence that follow each other among those but are not contiguous in the text: it straddles a starred part. |
| TextFilter.SpelledApart | pkg/textfilter/filter.go:51-63 | Letters in no occurrence that spell a pattern one after the other are never contiguous in the text, since contiguous they would be an occurrence. |
| TextFilter.CensoredCanMatchAgain | pkg/textfilter/filter.go:55-58 | Which can happen: censoring the pattern ab in aabb leaves a match. |
| PluginGraph.ResolvableStep | internal/plugin/loader/resolve.go:28-55 | A name is in the well-founded part of the dependency graph exactly when it is available and all its dependencies are. |
| PluginGraph.ClosureCharacterises | internal/plugin/loader/resolve.go:28-55 | That part is exactly the names whose whole dependency closure is available and free of cycles. |
| PluginResolve.VisitSound | internal/plugin/loader/resolve.go:28-55 | Each visit of the three-colour search keeps its invariant, succeeds only for resolvable names, and fails only with an error that names a missing or cyclic name the plugin really reaches. |
| PluginResolve.VisitAllSound | internal/plugin/loader/resolve.go:41-48 | The loop over one plugin's dependencies does the same for all of them, stopping at the first error. |
| PluginResolve.ResolveExact | internal/plugin/loader/resolve.go:9-66 | resolve returns exactly the resolvable names, each once and after all its dependencies; returned and blocked names partition the candidate names; the final filter removes nothing; every stored error is a true reason. |
| PluginResolve.FilterKeepsAll | internal/plugin/loader/resolve.go:58-64 | The final filter keeps a list in which nothing is blocked as it is. |
| PluginResolve.FilteredExactly | internal/plugin/loader/resolve.go:58-63 | The filter keeps exactly what is not blocked. |
| PluginResolve.InputOrderIrrelevant | internal/plugin/loader/resolve.go:9-27 | The order of the candidates does not matter to any part of the result. |
| PluginResolve.NamesInOrder | internal/plugin/loader/resolve.go:23-57 | Plugins load in byte order of their names but for dependencies: one comes before another with a smaller name only if some available plugin, named no later than the other, has it in its dependency closure. |
| StringOrder.BeforeDecides | internal/plugin/loader/resolve.go:27 | Of two names the one with the smaller character at the first difference comes first, and without a difference the shorter one. |
| StringOrder.SortedAscends | internal/plugin/loader/resolve.go:27 | Sorting a set of names lists them in that order, each once. |
| PluginResolve.Resolver.VisitName | internal/plugin/loader/resolve.go:28-55 | The closure that mutates the state and blocked maps and the ordered slice terminates and does what the specified search does. |
| PluginResolve.Resolver.VisitDependencies | internal/plugin/loader/resolve.go:41-48 | So does its loop over dependencies. |
| PluginResolve.Group | internal/plugin/loader/resolve.go:10-24 | Grouping by name keeps every candidate of each name, in order. |
| PluginResolve.Resolve | internal/plugin/loader/resolve.go:9-66 | The imperative resolve returns the two results of the specified search. |
| PluginLoader.ValidName | internal/plugin/loader/manifest.go:120-130 | A name is accepted exactly when it is non-empty lower-case letters, digits and inner dashes. |
| PluginLoader.NameChars | internal/plugin/loader/manifest.go:124-128 | The characters of a name are exactly a to z, 0 to 9 and the dash, by their codes. |
| PluginLoader.SafeNameExactly | internal/plugin/loader/manifest.go:120-130 | A name is safe exactly when each character is a letter, a digit, or a dash with characters on both sides. |
| PluginLoader.ValidMetadata | internal/plugin/loader/manifest.go:102-117 | A manifest is accepted exactly when its fields are present and valid and its dependencies are valid, distinct and not itself. |
| PluginLoader.SafeManifestExactly | internal/plugin/loader/manifest.go:102-117 | A manifest is safe exactly when no text is missing, all names are safe, no dependency is repeated or the plugin itself, and both versions are versions. |
| PluginLoader.FailedDependency | internal/plugin/loader/manifest.go:160-167 | The dependency reported is the first that is not loaded, and none is reported exactly when all are. |
| PluginLoader.FirstMissingExactly | internal/plugin/loader/manifest.go:160-167 | There is a first missing dependency exactly when one is missing, and only one. |
| PluginLoader.OneReason | internal/plugin/loader/loader.go:104-122 | A plugin in the order has one reason not to load, and has it exactly when a dependency did not load before it or its own registration fails. |
| PluginLoader.Loader.OpenCandidates | internal/plugin/loader/loader.go:152-177 | Every object is either opened into a candidate with a valid, compatible manifest or skipped under its path, with the first reason that applies. |
| PluginLoader.RejectedExactly | internal/plugin/loader/manifest.go:78-98 | An object that does not open, an unsafe manifest and another SDK major than that of 1.0.0 are each skipped for that reason, and nothing else is. |
| PluginLoader.CandidatesExactly | internal/plugin/loader/loader.go:152-177 | The candidates are exactly one for each usable object, under its manifest's name and dependencies. |
| PluginLoader.RegisteredExact | internal/plugin/loader/loader.go:104-122 | In dependency order a plugin ends up loaded exactly when its whole dependency closure registers. |
| PluginLoader.RegisteredInOrder | internal/plugin/loader/loader.go:104-122 | Loaded names are distinct and each comes after all its dependencies. |
| PluginLoader.Loader.RegisterAll | internal/plugin/loader/loader.go:103-122 | The registration loop loads exactly those, skips exactly the other ordered names, and says why: the first dependency that is not loaded, or else its own registration. |
| PluginLoader.Loader.Load | internal/plugin/loader/loader.go:89-135 | A failed scan leaves the stored report alone; otherwise the report counts the files, lists the registered names, skips every unusable path and every candidate name that is not loaded, and gives each its own reason. |
| PluginLoader.LoadExact | internal/plugin/loader/loader.go:97-122 | For any pattern of registration failures a plugin is loaded exactly when it is resolvable and its whole dependency closure registers. |
| PluginLoader.LoadedXorSkipped | internal/plugin/loader/loader.go:97-122 | Every candidate name is in exactly one of Loaded and Skipped (paths contain a dot, names never do). |
| PermissionNode.ValidSegment | internal/permission/node.go:69-84 | The byte scan accepts exactly the non-empty segments of lower-case letters, digits, underscores and dashes, and a wildcard only in last place. |
| PermissionNode.SegmentChars | internal/permission/node.go:76-81 | The characters of a segment are exactly a to z, 0 to 9, underscore and dash, by their codes. |
| PermissionNode.SegmentExactly | internal/permission/node.go:69-84 | A segment is accepted exactly when it is the wildcard in last place, or not empty and made of those characters. |
| PermissionNode.Valid | internal/permission/node.go:15-35 | The in-place scan accepts exactly the nodes all of whose dot-separated segments are valid. |
| PermissionNode.PrefixBySegments | internal/permission/node.go:43-53 | A string prefix that ends in a dot is a proper prefix in segments, and the other way round. |
| PermissionNode.MatchesBySegments | internal/permission/node.go:43-53 | String matching agrees with segment matching: equal segments, or a wildcard after a proper prefix. |
| PermissionNode.SpecificityCounts | internal/permission/node.go:56-66 | The specificity of a matching node is its number of segments before the wildcard. |
| PermissionNode.NoMatchNoSpecificity | internal/permission/node.go:56-59 | The specificity is minus one exactly when the node does not match. |
| PermissionNode.SameSpecificitySameNode | internal/permission/node.go:43-66 | Two nodes that match one query with the same specificity are the same node. |
| PermissionNode.ExactBeatsWildcards | internal/permission/node.go:43-66 | The exact node is strictly more specific than any other node that matches. |
| PermissionResolve.BestUnique | internal/permission/service/resolve.go:126-151 | The precedence order (specificity, then nearness, then deny) has at most one best among the grants of a chain. |
| PermissionResolve.PreferableJoins | internal/permission/service/resolve.go:126-151 | preferable of the best of two sets is a best of their union. |
| PermissionResolve.BestGrantIsBest | internal/permission/service/resolve.go:112-124 | Folding preferable over the grants of one holder gives the best of all that match. |
| PermissionResolve.GrantOrderIrrelevant | internal/permission/service/resolve.go:112-124 | The order and repetition of grants do not matter. |
| PermissionResolve.FindBestGrant | internal/permission/service/resolve.go:112-124 | The loop computes that fold. |
| PermissionResolve.BestInChainIsBest | internal/permission/service/resolve.go:92-99 | Along an inheritance chain the running best is the best of all matching grants of all groups so far. |
| PermissionStore.Ranked | internal/permission/service/resolve.go:161-176 | A player's groups are listed completely, each record as stored. |
| PermissionStore.RankedInOrder | internal/permission/service/resolve.go:167-172 | They come by strictly falling weight, and by rising identifier among those of one weight, each once. |
| PermissionStore.Validate | internal/permission/service/validation.go:13-50 | The validating walk with its visited map terminates on every store and returns the specified error. |
| PermissionStore.ValidExactly | internal/permission/service/validation.go:13-50 | A group is accepted exactly when its texts are within their limits, no other group has its name, and its parents end at a root without passing through it. |
| PermissionStore.RefusedBecause | internal/permission/service/validation.go:13-50 | In a rooted store each refusal names the first thing wrong: the fields, the name, a parent that is not there, or else a cycle. |
| PermissionStore.WalkEnds | internal/permission/service/validation.go:32-47 | A parent walk that raised no error ends at a root, also after the record is written. |
| PermissionStore.StillEnds | internal/permission/service/mutation.go:46 | Every other chain still ends at a root after the write. |
| PermissionStore.CreatedOk | internal/permission/service/mutation.go:18-27 | Creating a group keeps parents acyclic and present, names unique and memberships within the stored groups. |
| PermissionStore.UpdatedOk | internal/permission/service/mutation.go:30-60 | So does updating one. |
| PermissionStore.PatchedFields | internal/permission/service/validation.go:123-145 | Every field of a patched group is what the patch gives for it, trimmed where it is text, or what it was. |
| PermissionStore.CreatedRecord | internal/permission/service/mutation.go:18-27 | A created group has the given fields, its texts trimmed, and version one; nothing else in the store changes. |
| PermissionStore.UpdatedRecord | internal/permission/service/mutation.go:30-60 | An updated group has the patched fields and the next version; nothing else in the store changes. |
| PermissionStore.UpdateRefused | internal/permission/service/mutation.go:30-43 | An update is refused exactly for a missing group or for what validation says of the patched group. |
| PermissionStore.GrantNodeExactly | internal/permission/service/validation.go:103-120 | Nodes that can be granted are exactly the full wildcard, valid registered nodes, and valid wildcards whose fixed segments begin a concrete registered node. |
| PermissionStore.ListedGrants | internal/permission/repository/grant.go:13-16 | The grants listed for a holder are exactly those stored, each with its own flag. |
| PermissionStore.ListedInOrder | internal/permission/repository/grant.go:13-16 | They are listed in byte order of their nodes, each node once. |
| PermissionStore.NodeGranted | internal/permission/repository/grant.go:17-18 | After an upsert the holder has the node with the given flag and every other stored pair is as before. |
| PermissionStore.NodeRevoked | internal/permission/repository/grant.go:19-20 | After a delete exactly that holder's node is gone and every other flag is as before. |
| PermissionStore.MemberAdded | internal/permission/repository/grant.go:21-22 | After adding a member exactly that membership is new. |
| PermissionStore.MemberRemoved | internal/permission/repository/grant.go:23-24 | After removing one exactly that membership is gone. |
| PermissionStore.ChainSucceeds | internal/permission/service/resolve.go:67-109 | Walking up from a group whose parents end at a root meets neither a cycle nor a missing group. |
| PermissionResolve.ChainFails | internal/permission/service/resolve.go:68-107 | The walk fails as a cycle at the first group seen before and as a missing group at the first parent that is not there, and otherwise lists the group and then what is above it. |
| PermissionStore.ReachableOk | internal/permission/service/mutation.go:18-60 | Every sequence of creations and updates, accepted or refused, leaves such a store. |
| PermissionStore.AppliedExactly | internal/permission/service/mutation.go:18-60 | Each mutation of a run leaves what the rules say, or, refused, the store as it was. |
| PermissionStore.ReachableResolves | internal/permission/service/resolve.go:67-109 | So in every reachable store resolveGroup never fails with a cycle or a missing group. |
| PermissionStore.MembersAffected | internal/permission/repository/grant.go:30 | Every direct member of a group is among the players its update affects. |
| PermissionStore.AffectedExactly | internal/permission/repository/grant.go:29-30 | Affected by a group are exactly its members and the members of groups whose parent is, or inherits from, it. |
| PermissionCache.SharedInjective | internal/permission/cache/read.go:117-131 | Different cache keys never share a Redis key, whatever the identifiers. |
| PermissionCache.CoherentAfter | internal/permission/cache/invalidate.go:10-41 | Entries that survive a write are right afterwards if the write did not change what they project. |
| PermissionCache.Cache.FindLocal | internal/permission/cache/cache.go:101-120 | A local read hits exactly when an unexpired entry of the right type is there; it then returns that entry, which is what the store holds, and otherwise removes the key. |
| PermissionCache.Cache.StoreLocal | internal/permission/cache/read.go:76-85 | The entry is stored with its expiry, every 256th write removes exactly the expired entries, never the one just written, and the cache stays coherent. |
| PermissionCache.Cache.SweepExpired | internal/permission/cache/read.go:88-94 | The sweep removes exactly the expired entries. |
| PermissionCache.SweepKeeps | internal/permission/cache/read.go:88-94 | An entry survives a sweep exactly when it expires later than now. |
| PermissionCache.StoredExactly | internal/permission/cache/read.go:76-85 | After the n-th local write the new entry and all others are there, but for the expired ones when n is a multiple of 256. |
| PermissionCache.HitExactly | internal/permission/cache/cache.go:101-120 | A local hit is an entry that expires later than now and holds the type of value its key calls for. |
| PermissionCache.Cache.Load | internal/permission/cache/cache.go:72-98 | Reading any key through both layers gives what reading the store would, with Redis up, down or holding unreadable values; a local hit changes nothing, a miss stores the answer where the code stores it, and the next local read hits. |
| PermissionCache.Cache.Delete | internal/permission/cache/invalidate.go:26-34 | Invalidation removes exactly one key from both layers. |
| PermissionCache.Cache.ExpireShared | internal/permission/cache/cache.go:134 | Shared entries may expire at any time without harm. |
| PermissionService.MarkVisited | internal/permission/service/resolve.go:68-90 | The sixteen-slot array with its overflow map reports a revisit exactly when a plain visited set would. |
| PermissionService.FirstGroupMeaning | internal/permission/service/resolve.go:52-63 | Groups are asked in order; the first with any matching grant on its chain decides, with the best of that chain. |
| PermissionService.ResolvedMeaning | internal/permission/service/resolve.go:32-64 | A matching direct grant decides over every group; otherwise the first group that says anything does; otherwise nothing is found. |
| PermissionService.HeaviestDecides | internal/permission/service/resolve.go:52-63 | Without a matching direct grant the answer is that of the heaviest of the player's groups with any matching grant on its chain, the lowest identifier on a tie; without such a group nothing is found. |
| PermissionService.ResolvedRefused | internal/permission/service/resolve.go:32-38 | A check is refused exactly for a player identifier below one, or else for a node that is not concrete; in a valid store every other check answers. |
| PermissionService.ExactGrantDecides | internal/permission/service/resolve.go:40-46 | A direct grant of the very node asked for decides, whatever wildcards and groups say. |
| PermissionService.Service.ResolveChain | internal/permission/service/resolve.go:67-109 | The cached walk up one chain equals resolution on the store. |
| PermissionService.Service.Resolve | internal/permission/service/resolve.go:32-64 | Resolving through the cache equals resolving on the store, in every valid state. |
| PermissionService.Service.HasPermission | internal/permission/service/resolve.go:26-29 | The answer is allowed exactly when the store's decision is found and allows. |
| PermissionService.Service.CreateGroup | internal/permission/service/mutation.go:18-27 | Writes what the rules say and keeps store and cache right without invalidating anything. |
| PermissionService.Service.UpdateGroup | internal/permission/service/mutation.go:30-60 | Writes the patched group, and its invalidations leave no stale fragment, including group records inside membership lists. |
| PermissionService.Service.GrantGroupNode | internal/permission/service/mutation.go:63-75 | Writes one grant, or refuses with the right error and no change, and leaves no stale fragment. |
| PermissionService.Service.RevokeGroupNode | internal/permission/service/mutation.go:77-89 | The same for removing a grant. |
| PermissionService.Service.AddPlayerToGroup | internal/permission/service/mutation.go:91-103 | The same for adding a member. |
| PermissionService.Service.RemovePlayerFromGroup | internal/permission/service/mutation.go:105-117 | The same for removing a member. |
| PermissionService.Service.GrantPlayerNode | internal/permission/service/mutation.go:119-131 | The same for a direct grant. |
| PermissionService.Service.RevokePlayerNode | internal/permission/service/mutation.go:133-145 | The same for removing one. |
| PermissionService.GrantThenAsk | internal/permission/service/mutation.go:119-131 | After a grant of a concrete node to a player, asking for that node through the cache answers the granted flag. |
| PermissionService.RevokeThenAsk | internal/permission/service/mutation.go:133-145 | After a revoke none of the player's grants is of that node, and asking through the cache answers what the others say. |
| PermissionService.GrantListed | internal/permission/service/mutation.go:119-131 | A player grant replaces that player's grant of that node and changes no other player or node. |
| PermissionService.RevokeListed | internal/permission/service/mutation.go:133-145 | A player revoke removes that player's grant of that node and no other. |
| PermissionService.GroupGrantListed | internal/permission/service/mutation.go:63-75 | The same for the grants of a group. |
| PermissionService.GroupRevokeListed | internal/permission/service/mutation.go:77-89 | And for revoking one. |
| PermissionService.GroupNodeRefused | internal/permission/service/validation.go:53-69 | Which error each bad group or node gets, in the order of the checks. |
| PermissionService.MembershipRefused | internal/permission/service/validation.go:72-88 | The same for memberships. |
| PermissionService.PlayerNodeRefused | internal/permission/service/validation.go:91-100 | The same for direct grants. |
| PermissionService.Service.AssignDefaultGroup | internal/permission/service/mutation.go:147-160 | Adds the player to the group named member, or fails exactly when there is none or the player is invalid. |
| PermissionService.WriteKeepsCoherence | internal/permission/cache/invalidate.go:10-41 | A write followed by deletion of every key whose projection it changed keeps the cache coherent, and no group cached as missing if there was none. |
| PermissionService.UpdateLocal | internal/permission/service/mutation.go:53-56 | Updating a group changes no projection but those of its own keys and of the affected players' memberships. |
| PermissionService.CreateKeepsCoherence | internal/permission/service/mutation.go:26 | A new group leaves the cache coherent exactly when its record was not cached as missing, which never happens when only stored groups are asked for. |
| Octets.XorCancels | networking/crypto/diffie/rc4.go:36-50 | Exclusive or with the same octet twice gives the octet back. |
| Octets.XorBitwise | networking/crypto/diffie/rc4.go:47 | A bit of an exclusive or is set exactly where the bits of the operands differ. |
| Octets.BitsDetermine | networking/crypto/diffie/rc4.go:47 | An octet is its eight bits. |
| Octets.ValueOfFixed | networking/crypto/diffie/rsa.go:85-92 | Converting a number to fixed-width octets and back gives the number (sections 4.1 and 4.2 of RFC 8017). |
| Octets.ValueBigEndian | networking/crypto/diffie/rsa.go:86 | The first octet of a number counts for the most. |
| Octets.FixedOfValue | networking/crypto/diffie/rsa.go:85-92 | Converting octets to a number and back gives the octets, leading zeros included. |
| Octets.ValueOfMinimal | networking/crypto/diffie/channel.go:122 | Reading the shortest octets of a number gives the number, so the shared key determines the shared value. |
| Octets.MinimalOfValue | networking/crypto/diffie/channel.go:122 | Octets without a leading zero are the shortest octets of their value. |
| Octets.MinimalFits | networking/crypto/diffie/rsa.go:88-89 | Left-padding the shortest form with zeros is the fixed-width form. |
| Decimal.ParseOfText | networking/crypto/diffie/channel.go:117 | Parsing the decimal text of a number gives the number. |
| Decimal.ParseRefuses | networking/crypto/diffie/channel.go:117 | A text is refused exactly when it has no digit, or a character that is neither a digit nor a sign in front. |
| Decimal.ParseOfFormat | internal/permission/cache/read.go:118 | The text of any integer parses to it, and starts with a minus exactly when it is negative. |
| Decimal.TextDigits | networking/crypto/diffie/channel.go:71 | Its last digit is the remainder by ten and the digits before it are those of the tenth. |
| Decimal.FormatInjective | internal/permission/cache/read.go:118 | Different integers have different decimal texts. |
| Frames.AppendFrame | networking/codec/frame.go:6-19 | Appends the length, the header and the payload, or nothing when the size does not fit in 32 bits. |
| Frames.FrameLaid | networking/codec/frame.go:6-19 | The first four octets of a frame hold the size of header and payload, the next two the header, the others the payload. |
| Frames.DecodeFrames | networking/codec/frame.go:22-43 | The loop yields the specified packets, leftover and error. |
| Frames.FrameHead | networking/codec/frame.go:6-43 | Decoding at a frame yields its packet and what follows the frame. |
| Frames.DecodeStream | networking/codec/frame.go:6-43 | Any list of framed packets decodes to itself with nothing left over. |
| Frames.DecodesExactly | networking/codec/frame.go:6-43 | Octets decode to a list of packets with nothing left over exactly when they are the frames of those packets. |
| Frames.DecodeConcat | networking/codec/frame.go:22-43 | Decoding a + b is decoding a and then its leftover + b; a malformed frame stays malformed. |
| Frames.RestIncomplete | networking/codec/frame.go:22-43 | The leftover of decoding holds no complete frame. |
| Frames.AnyChunking | networking/codec/frame.go:22-43 | However a stream is cut, feeding the pieces gives the packets and leftover of decoding it at once, and an error for one cut exactly when for any other. |
| Payload.DecodeOfEncode | networking/codec/payload.go:54-142 | A value written for any kind reads back, with what follows left untouched; a signed integer survives the unsigned wire form. |
| Payload.EncodeOfDecode | networking/codec/payload.go:54-142 | A value that was read writes back the octets it came from, but for a true boolean other than 1. |
| Payload.WireForm | networking/codec/payload.go:54-76 | Each kind has its form on the wire: numbers big-endian, signed ones modulo 2^32, doubles by their 64 bits, a string behind its length on two octets; only unknown kinds and strings beyond 65535 octets are refused. |
| Payload.TwosComplement | networking/codec/payload.go:61-63 | A signed integer and its wire form agree modulo 2^32 and are the same number where that is not negative. |
| Payload.ReadingFails | networking/codec/payload.go:79-142 | Reading fails exactly for an unknown kind, and as truncated exactly when the octets end before the value or its text does. |
| Payload.ReadCarries | networking/codec/payload.go:79-142 | A value that was read carries what its kind says and nothing else. |
| Payload.AppendPayload | networking/codec/payload.go:9-32 | The loop appends what the definition encodes to, or fails with the first error. |
| Payload.DecodePayload | networking/codec/payload.go:35-51 | The loop yields the specified values, leftover and error; an optional field that does not fit ends the payload. |
| Payload.EncodeExact | networking/codec/payload.go:9-32 | Encoding succeeds exactly when there are not too many values, each is writable for its field, and every field left out is optional. |
| Payload.EncodeTooLarge | networking/codec/payload.go:9-32 | Encoding fails for a string too large exactly when such a one comes behind writable values only; any other refusal, too many values among them, is of a field. |
| Payload.DecodeOfFields | networking/codec/payload.go:9-51 | Decoding what was encoded gives the values in canonical form, with anything after a complete payload left over. |
| Payload.PacketRoundTrip | networking/codec/packet.go:22-48 | DecodePacketExact of NewPacket returns the values exactly when nothing is left out or the first omitted field has a known kind; otherwise it reports an invalid field. |
| Payload.PacketsDetermineValues | networking/codec/packet.go:22-48 | With known kinds two accepted lists that make the same packet carry the same values. |
| Payload.PacketRefused | networking/codec/packet.go:37-48 | A packet is refused for the error of its payload, and otherwise exactly for octets left behind it. |
| Payload.ReencodeDecoded | networking/codec/packet.go:22-48 | Decoded values can be re-encoded exactly when every field after them is optional, and then decode to themselves again from octets that differ only in true booleans. |
| Payload.WrittenBackExactly | networking/codec/payload.go:9-51 | A definition lets every packet that decodes be re-encoded exactly when behind every optional field, up to the first field of an unknown kind, there are only optional ones. |
| Payload.DecodeEnds | networking/codec/payload.go:35-51 | Decoding reads fields of known kinds only, and where it stops early without an error it stops at an optional field of a known kind. |
| Payload.RequiredAfterOptional | networking/codec/payload.go:18-23 | With a required field after an optional one the empty payload decodes, but its values cannot be re-encoded. |
| Rc4.SwapPermutes | networking/crypto/diffie/rc4.go:29 | Swapping two entries keeps the table a permutation. |
| Rc4.RoundsStart | networking/crypto/diffie/rc4.go:22-25 | The key schedule starts from the table in order. |
| Rc4.RoundsNext | networking/crypto/diffie/rc4.go:26-30 | Round k moves j on by entry k and the key octet at k, counted around the key, and exchanges the entries at k and j. |
| Rc4.StreamStart | networking/crypto/diffie/rc4.go:22-32 | The stream starts from the table after all rounds, with both indexes zero. |
| Rc4.OneOctet | networking/crypto/diffie/rc4.go:41-47 | For one octet i moves on by one, j by the entry at i, the entries at i and j are exchanged, and the octet is combined with the entry at their sum. |
| Rc4.RoundsPermute | networking/crypto/diffie/rc4.go:18-33 | The key schedule leaves a permutation of all 256 octets. |
| Rc4.ApplyPermutes | networking/crypto/diffie/rc4.go:36-50 | So does every use of the stream. |
| Rc4.ApplyConcat | networking/crypto/diffie/rc4.go:36-50 | Applying the stream to a + b is applying it to a and then to b: fragmentation does not matter. |
| Rc4.ApplyCancels | networking/crypto/diffie/rc4.go:36-50 | A second stream in the same state undoes the first and ends in the same state. |
| Rc4.UnchangedIsSilent | networking/crypto/diffie/rc4.go:36-50 | The stream leaves octets as they are only where all its key octets are zero. |
| Rc4.NewCipher | networking/crypto/diffie/rc4.go:18-33 | The in-place key schedule yields the specified state for any non-empty key, and the empty key is refused. |
| Rc4.Cipher.Transform | networking/crypto/diffie/rc4.go:36-50 | The in-place loop yields the specified octets and the specified next state. |
| ModularPower.ExpReduced | networking/crypto/diffie/rsa.go:87 | Reducing the base first does not change a modular power. |
| ModularPower.SharedValueAgrees | networking/crypto/diffie/channel.go:122 | Both sides of a Diffie-Hellman exchange compute the same value. |
| Rsa.FillNonZero | networking/crypto/diffie/rsa.go:150-160 | Fills the padding with the non-zero octets of the random source in order, failing exactly when it runs dry. |
| Rsa.NonZeroOne | networking/crypto/diffie/rsa.go:152-156 | An octet of the random source is passed over exactly when it is zero. |
| Rsa.Pad | networking/crypto/diffie/rsa.go:95-114 | Builds a block of the PKCS#1 v1.5 form (section 8.1 of RFC 2313) exactly when the data leaves room for eight octets of padding. |
| Rsa.Unpad | networking/crypto/diffie/rsa.go:117-133 | The scan accepts and returns what is specified. |
| Rsa.UnpadExact | networking/crypto/diffie/rsa.go:117-133 | unpad accepts exactly the padded blocks of its type (section 7.2 of RFC 8017) and returns exactly their data. |
| Rsa.TransformFixed | networking/crypto/diffie/rsa.go:85-92 | transform is the reduced power written on exactly blockSize octets. |
| Rsa.PaddedBelowModulus | networking/crypto/diffie/rsa.go:95-114 | A padded block is below the modulus. |
| Rsa.TransformInverts | networking/crypto/diffie/rsa.go:85-92 | Transforming with one exponent and then the other gives the very same block back. |
| Rsa.SignData | networking/crypto/diffie/rsa.go:55-62 | Signing pads and transforms as specified, and fails only for data that does not fit. |
| Rsa.VerifySign | networking/crypto/diffie/rsa.go:55-82 | Data can be signed exactly when it has at most blockSize - 11 octets, and then verifies to itself. |
| Rsa.DecryptEncrypt | networking/crypto/diffie/rsa.go:65-72 | Whatever non-zero padding a client chose, the encrypted block decrypts to its data. |
| Rsa.VerifyOnlySigned | networking/crypto/diffie/rsa.go:75-82 | The only block below the modulus that verifies to some data is its signature. |
| Rsa.MatchingKeyAccepted | networking/crypto/diffie/rsa.go:136-147 | A key whose exponents undo each other passes the probe of newRSAKey. |
| RsaInverse.Cofactor | networking/crypto/diffie/rsa.go:85-92 | A prime that divides a product without dividing the first factor divides the second. |
| RsaInverse.PrimeExactly | networking/crypto/diffie/rsa.go:85-92 | A prime is a number above one that is no product of two others. |
| RsaInverse.OneMoreMeans | networking/crypto/diffie/rsa.go:85-92 | The product of matching exponents is one more than a multiple of each prime less one. |
| RsaInverse.Fermat | networking/crypto/diffie/rsa.go:85-92 | a^p is a modulo every prime p. |
| RsaInverse.TransformIsPower | networking/crypto/diffie/rsa.go:85-92 | transform gives the number below the modulus that is congruent to the block's value to the power of the exponent, on exactly blockSize octets. |
| RsaInverse.SignIsPower | networking/crypto/diffie/rsa.go:55-62 | A signature is congruent to the padded data to the power of the private exponent, and exists exactly for data of at most blockSize - 11 octets. |
| RsaInverse.VerifyIsPower | networking/crypto/diffie/rsa.go:75-82 | Verifying yields data exactly when the signature to the power of the public exponent is congruent to a block padding that data. |
| RsaInverse.DecryptIsPower | networking/crypto/diffie/rsa.go:65-72 | Decrypting yields data exactly when the block to the power of the private exponent is congruent to a block padding that data. |
| RsaInverse.BlockSizeBetween | networking/crypto/diffie/rsa.go:42 | A modulus takes at least k octets exactly when it is at least 256 to the power of k - 1. |
| RsaInverse.NewKeyExactly | networking/crypto/diffie/rsa.go:25-52 | A key triple is accepted exactly when its exponents are positive, its modulus has at least 64 octets, and the padded probe to the power of both exponents is congruent to itself. |
| Rsa.ProbeSpells | networking/crypto/diffie/rsa.go:137 | The probe spells pixels. |
| RsaInverse.GeneratedInverts | networking/crypto/diffie/rsa.go:85-92 | For distinct primes and matching exponents (section 3.2 of RFC 8017) the two exponents undo each other on every number below the modulus. |
| RsaInverse.GeneratedKeyRoundTrips | networking/crypto/diffie/rsa.go:55-133 | So with such a key every payload of at most blockSize - 11 octets survives signing and verifying, and every padded block survives encrypting and decrypting. |
| Channel.NegotiationAgrees | networking/crypto/diffie/channel.go:56-152 | A client that follows the protocol reads the three numbers the server signed, the server reads the number the client encrypted, and the shared keys of both sides are the same. |
| Channel.HonestOutcome | networking/crypto/diffie/channel.go:103-152 | The server accepts such a client exactly when its public number lies in [2, p - 2] and the shared key is not empty, and then has the key the client has. |
| Channel.OutcomeExactly | networking/crypto/diffie/channel.go:111-129 | Complete arrives at a key exactly when the decrypted text is a number from 2 to p - 2, and the key is, without leading zeros, the number below the prime congruent to it to the power of the private number. |
| Channel.PublicIsPower | networking/crypto/diffie/channel.go:70 | The public value is the number below the prime congruent to the generator to the power of the private number. |
| Channel.Negotiate | networking/crypto/diffie/channel.go:56-152 | A negotiation run against the channel object completes exactly then, with both streams of the server started from the key the client computed from what it read; otherwise the channel has failed. |
| Channel.GeneratedKeysNegotiate | networking/crypto/diffie/channel.go:56-152 | The same holds of every key generated from two distinct primes with matching exponents. |
| Channel.SecureChannel.Begin | networking/crypto/diffie/channel.go:56-89 | Succeeds exactly on a plain channel, not cancelled, whose drawn prime fits into one signed block; it then publishes signatures of the ordered prime and generator, and any failure after drawing fails the channel. |
| Channel.SecureChannel.Complete | networking/crypto/diffie/channel.go:103-152 | Succeeds exactly once, on a negotiating channel, for an encrypted number in the group that gives a non-empty key; it then answers with the signature of the public value of the drawn numbers and both ciphers start from that key, and any other failure than cancellation fails the channel. |
| Channel.SecureChannel.Activate | networking/crypto/diffie/channel.go:155-164 | Exactly a completed negotiation can be activated. |
| Channel.SecureChannel.Open | networking/crypto/diffie/channel.go:167-176 | Opens exactly when ready, advancing only the inbound stream. |
| Channel.SecureChannel.Seal | networking/crypto/diffie/channel.go:179-191 | Seals exactly when ready, advancing only the outbound stream, or copies when the server does not encrypt. |
| Channel.SecureChannel.Close | networking/crypto/diffie/channel.go:194-203 | Fails the channel and drops both ciphers. |
| SecureStream.SealedStream | pkg/http/websocket/writer.go:101-119 | Sealing frame by frame is sealing the whole stream. |
| SecureStream.OpenedStream | pkg/http/websocket/reader.go:41-46 | Opening fragment by fragment is opening the whole stream. |
| SecureStream.ReceiveIsFeed | pkg/http/websocket/reader.go:41-60 | Opening and decoding fragments as they come is decoding the opened stream. |
| SecureStream.EndToEnd | pkg/http/websocket/reader.go:41-60 | Packets framed, sealed by one stream, cut anywhere, opened by a second stream with the same key and decoded piece by piece are the same packets. |
| SocketReader.LayoutDecodes | networking/codec/frame.go:34-38 | Read before anything moves, the payload slices are the decoded payloads. |
| SocketReader.Reader.Append | pkg/http/websocket/reader.go:47 | Appends the opened octets behind what was left, in place or in a larger array. |
| SocketReader.Reader.Receive | pkg/http/websocket/reader.go:47-60 | Leaves exactly the undecoded octets in the buffer and dispatches what the slices hold after those were moved to its front. |
| SocketReader.RestAtEnd | networking/codec/frame.go:22-43 | The leftover is the end of the buffer and every payload lies before it, behind at least one frame overhead. |
| SocketReader.UntouchedIsRight | pkg/http/websocket/reader.go:53-58 | If the leftover does not reach into a payload, the packets dispatched are the packets decoded. |
| SocketReader.ShortLeftoverIsRight | pkg/http/websocket/reader.go:53-58 | A leftover of at most six octets never does. |
| SocketReader.TouchedCanBeWrong | pkg/http/websocket/reader.go:53-58 | Otherwise some buffer of the same layout and leftover is dispatched wrongly: untouched is exactly the layout condition. |
| SocketReader.SevenOctetLeftoverFails | pkg/http/websocket/reader.go:53-58 | The smallest such buffer: one frame with one payload octet and seven octets of the next frame. |
| SocketWriter.DrainConcat | pkg/http/websocket/writer.go:41-52 | Handling a queue is handling its first part and then the rest. |
| SocketWriter.Socket.Enqueue | pkg/http/websocket/session.go:96-127 | send and activate append exactly one item or change nothing, with the specified error; written and queued items are always everything accepted, in order. |
| SocketWriter.Socket.StartDispose | pkg/http/websocket/session.go:130-133 | Only the first disposal proceeds. |
| SocketWriter.Socket.EnqueueFarewell | pkg/http/websocket/writer.go:133-156 | A farewell item is queued when there is room in time; otherwise it is dropped and the socket finished, after which nothing more is written. |
| SocketWriter.Socket.Finish | pkg/http/websocket/session.go:153-161 | A socket finished from outside the writer writes nothing more and keeps what it has written, the beginning of what it accepted. |
| SocketWriter.Socket.WriteNext | pkg/http/websocket/writer.go:85-130 | Taking one item off the queue handles it and keeps first-in first-out. |
| SocketWriter.SentPrefix | pkg/http/websocket/writer.go:85-130 | The packets written from a queue are those of its longest prefix of fitting packets whose writes succeed. |
| SocketWriter.DrainPlain | pkg/http/websocket/writer.go:101-119 | Any queue handled without sealing goes out as plain frames up to its first failed write, oversized packet or close, and the writer stops there. |
| SocketWriter.DrainSealed | pkg/http/websocket/writer.go:101-119 | Any queue handled by an activated, encrypting writer goes out as one sealed stream up to the first such item. |
| SocketWriter.Barrier | pkg/http/websocket/writer.go:41-130 | Whatever is queued before and after the first activation, and whichever writes fail: what comes before it is plain up to the first failure or close; if there was none and the channel is ready for it, what comes after is sealed as one stream when server encryption is on, up to the next failure, close or activation; otherwise nothing comes after. |
| SocketWriter.WireFollowsBarrier | pkg/http/websocket/session.go:96-127 | At every moment of a socket the wire holds a beginning of what the barrier makes of everything accepted so far. |
| SecuritySwitch.OctetsSent | networking/connection/security.go:148-163 | After a negotiation with server encryption the client gets everything up to the completion packet in the clear, then in the clear whatever was queued between it and the activation, then sealed what was queued after that. |
| SecuritySwitch.SwitchReadsAll | networking/connection/security.go:148-163 | A client that switches to opening right behind the completion packet reads everything up to it, and everything after it however that is cut, when nothing was written between completion and activation; otherwise only if the first key octets are zero for as long as what was. |
| SecuritySwitch.SwitchReadsAllExactly | networking/connection/security.go:148-163 | With a key whose first six key octets, the length of the shortest frame, are not all zero, it does so exactly when nothing was written in between, such as a heartbeat ping. |
| SecuritySwitch.CompletionOutFirst | pkg/http/websocket/writer.go:101-130 | The completion packet can be on the wire while the channel is not ready yet. |
| SecuritySwitch.ReaderReadsAll | networking/connection/security.go:175-183 | The server reads everything such a client seals when all of it comes after the activation was handled; octets that come before are not opened, and the client is then understood only if the key octets are zero for as long as those. |
| SecuritySwitch.ReaderReadsAllExactly | networking/connection/security.go:175-183 | With a key whose key octets are not all zero over what came early, exactly then. |
| SecuritySwitch.ReadsExactly | pkg/http/websocket/reader.go:41-60 | A receiver that opens and decodes fragments gets some list of packets and nothing else exactly when the opened octets are their frames. |
| Interceptor.CheckStep | internal/plugin/player/access.go:123-129 | Letting the winner of the swap look at its context keeps the invariant: once the host may have taken over, a derived context is expired and turns it away. |
| Interceptor.InvariantHolds | internal/plugin/player/access.go:118-153 | The invariant of the handshake holds after any interleaving of host, plugin goroutines, panic, timeout and disabling. |
| Interceptor.AtMostOnce | internal/plugin/player/access.go:118-153 | When the goroutine that wins the swap uses a derived context, the native handler runs at most once, whatever contexts the other goroutines use and however the steps interleave. |
| Interceptor.RaceRunsTwice | internal/plugin/player/access.go:124-130 | When the winner uses a context that is not derived there is an interleaving in which it runs twice. |
| Interceptor.AtMostOnceIffDerived | internal/plugin/player/access.go:124-130 | So at-most-once holds of all runs exactly when only derived contexts may win the swap. |
| Interceptor.AnswerMeaning | internal/plugin/player/access.go:136-152 | The plugin's own answer stands unless infrastructure failed; a native answer is the result of the one run there was; if the host, after a failure, saw that nobody had won the swap, the handler ran exactly once. |
| Interceptor.DroppedExactlyWhenRefused | internal/plugin/player/access.go:127-152 | After a failure, once the winner of the swap is through, the handler has not run at all exactly when the host had seen that somebody won and the winner was then refused by its expired context. |
| Interceptor.CompletedFirstIsReturned | internal/plugin/player/access.go:147-151 | Once a handler called through next has completed before the host returned, its own result is what the host returns after any failure. |
| Interceptor.HostFinishes | internal/plugin/player/access.go:137-153 | Undisturbed after its select, the host returns the callback's own answer, or after a failure runs the handler when nobody called it, returns the result of a completed call, or else the failure. |
| Interceptor.CallbackEnds | internal/plugin/runtime/scope.go:70-105 | A callback ends with its own error, with a panic that disables the plugin, or by its deadline, which only an expired context allows. |
| Interceptor.FirstCallAdmitted | internal/plugin/player/access.go:123-126 | While active is set the first goroutine to call next gets to its context check and all others are refused. |
| Interceptor.CallsAndLoads | internal/plugin/player/access.go:123-126 | Once active is cleared, next refuses. |
| Interceptor.AdmittedRuns | internal/plugin/player/access.go:130-135 | A goroutine let in runs the handler once, and stores its result before the call counts as completed. |
| Interceptor.CallbackAnswers | internal/plugin/player/access.go:118-153 | A callback that calls next and returns has the handler run once and its own answer returned; if it panics after that, the handler's answer is returned. |
| Interceptor.DisabledPassedOver | internal/plugin/player/access.go:136-145 | A disabled plugin is passed over: the host runs the handler once and its answer is returned. |
| SessionLifecycle.Session.Transition | networking/connection/state.go:118-134 | Applies the transition table, refusing everything but completion once disconnected. |
| SessionLifecycle.MovesExactly | networking/connection/state.go:137-222 | Every event moves a connected session from exactly these states to exactly these states. |
| SessionLifecycle.OtherMoves | networking/connection/session.go:190-244 | The steps other than transitions that move a session to another state, and where to. |
| SessionLifecycle.AcceptedExactly | networking/connection/session.go:172-244 | When each step is accepted and with which error it is refused. |
| SessionLifecycle.StepEffects | networking/connection/session.go:172-244 | What each accepted step leaves in every field, and that no other field changes. |
| SessionLifecycle.RefusedEffects | networking/connection/state.go:172-193 | A refused step leaves everything as it was, but for traffic that was recorded first. |
| SessionLifecycle.StartsFresh | networking/connection/session.go:66-104 | A new session has done nothing but start. |
| SessionLifecycle.LoginConnects | networking/connection/state.go:137-148 | With any number of key exchanges, none included, a new session whose client sends a packet and authenticates gets to Connected, authenticated, with every step accepted. |
| SessionLifecycle.ExchangesSpelled | networking/connection/state.go:141-144 | A key exchange is requested and then completed. |
| SessionLifecycle.Session.MarkTraffic | networking/connection/state.go:172-193 | Records traffic, and moves a created session on its first packet. |
| SessionLifecycle.Session.MarkPong | networking/connection/session.go:172-187 | Records the pong, or refuses once disconnected. |
| SessionLifecycle.StampTakes | networking/connection/session.go:180-184 | A given time is taken as it is, a missing one from the clock. |
| SessionLifecycle.Session.Authenticate | networking/connection/session.go:190-211 | Sets flag, time and state together, exactly from Authenticating. |
| SessionLifecycle.Session.SetSecurityPolicy | networking/connection/security.go:100-111 | Changes the policy exactly while no traffic has started, to the default for one without a mode. |
| SessionLifecycle.Session.AttachSecurity | networking/connection/security.go:114-133 | Attaches exactly the first channel, and only while connected. |
| SessionLifecycle.Session.BeginDisconnect | networking/connection/session.go:214-228 | Only the first caller gets past the flag; it closes done, which was not closed before. |
| SessionLifecycle.Session.Disconnect | networking/connection/session.go:214-244 | Undisturbed, Disconnect ends closed, with done closed once, the disposer called once and then the attached channel, if any, closed once. |
| SessionLifecycle.EveryRunSafe | networking/connection/session.go:190-244 | In every order of calls, Disconnect split in its steps, done closes and the disposer runs at most once; the attached channel and no other is closed, at most once and after the disposer, and is closed when Disconnect is through; a disconnected session is Closing or Closed, an authenticated one is past authentication, and there is always a policy. |
| SessionLifecycle.KeptForever | networking/connection/session.go:190-244 | Disconnection and its reason, authentication and its time, the attached channel, the policy once traffic started, and Closed once disconnected, are final. |
| SessionLifecycle.ClosedLeftExactly | networking/connection/state.go:155-156 | Closed is left exactly by a Disconnect of a session that reached it by raw transitions. |
| SessionLifecycle.PhasesInOrder | networking/connection/state.go:137-162 | No run skips a phase: a connected session was authenticated, authenticating and handshaking before, and a closed one was closing. |
| SessionLifecycle.NeverBack | networking/connection/state.go:137-162 | No step returns to an earlier phase, except exactly a Disconnect of a session closed by raw transitions. |
| SessionLifecycle.RanksRise | networking/connection/state.go:12-33 | The rank of the phases: created, handshaking and securing, authenticating, authenticated, connected, error, closing, closed. |
| SessionLifecycle.FlagUnlessRaw | networking/connection/state.go:147-148 | A session in state Authenticated or Connected carries the authenticated flag exactly when no raw transition accepted it. |
| SessionLifecycle.RawWithoutFlag | networking/connection/state.go:118-148 | Some run reaches state Authenticated without the flag. |
| SessionLifecycle.TrafficRefusedExactly | networking/connection/session_packet.go:13-44 | Receive and Send are refused at their first look exactly when the session is disconnected. |
| SessionLifecycle.EntersExactly | networking/connection/session_packet.go:12-16 | A packet call is refused at its first look exactly when the session is disconnected; otherwise it records traffic and, inbound, activity, and opens a new session. |
| SessionLifecycle.ChecksExactly | networking/connection/session_packet.go:18-21 | Its second look lets it through exactly when the session is still connected. |
| SessionLifecycle.PlansMean | networking/connection/session_packet.go:23-52 | Inbound the observers come first and the handler follows; outbound the sender needs the handlers' consent, and the observers, last, that the packet was sent. |
| SessionLifecycle.NothingAdmittedAfterDisconnect | networking/connection/session_packet.go:12-53 | Once disconnected, no packet is let through to handlers, sender or observers any more, not even one that had already marked its traffic. |
| SessionLifecycle.GoesOnAlone | networking/connection/session_packet.go:17-53 | A packet that was let through goes on to its handlers, sender and observers by their own outcomes alone, whatever else happens to the session. |
| SessionLifecycle.DeliveredAfterDisconnect | networking/connection/session_packet.go:12-53 | After a disconnection a packet still reaches a handler, the sender or the observers exactly when it had been let through before, was not stopped, and the calls before that one return without an error. |
| TraceLog.Tracer.Activate | internal/realm/admin/trace/tracer.go:81-101 | Starts one empty trace, or returns the one there is. |
| TraceLog.ActivatesExactly | internal/realm/admin/trace/tracer.go:81-101 | Activating starts one empty trace and remembers what its list holds, or changes nothing when there is one. |
| TraceLog.Tracer.Capture | internal/realm/admin/trace/capture.go:24-63 | Accepts the next numbered line within the window of an active trace, truncates at a limit or a full queue, or ignores the packet. |
| TraceLog.CaptureExactly | internal/realm/admin/trace/capture.go:24-63 | A packet in the window of a live trace is recorded exactly when its line fits the limits and the queue has room; otherwise the trace is truncated; no other packet changes a trace or the queue. |
| TraceLog.TruncatedOnlyWhenFull | internal/realm/admin/trace/capture.go:45-62 | A trace becomes truncated only by a packet in its window that would go over a limit or finds the queue full. |
| TraceLog.Tracer.PersistWrite | internal/realm/admin/trace/lifecycle.go:64-82 | The worker appends the line at the head of the queue, or loses it, and answers a barrier with the outcome. |
| TraceLog.Tracer.BeginFinalize | internal/realm/admin/trace/finalize.go:22-34 | Marks an active trace and takes its snapshot, or refuses without change. |
| TraceLog.Tracer.EnqueueBarrier | internal/realm/admin/trace/lifecycle.go:97-103 | Queues one fresh barrier behind everything accepted. |
| TraceLog.Tracer.ResetFinalizing | internal/realm/admin/trace/finalize.go:101-107 | A failed finalization leaves the trace active again. |
| TraceLog.Tracer.FinalizeStored | internal/realm/admin/trace/finalize.go:53-89 | Uploads the whole list and then removes it; if the lock cannot be asked for or is held, or the list cannot be read or uploaded, nothing changes and the reason is returned. |
| TraceLog.CleanupExactly | internal/realm/admin/trace/finalize.go:92-98 | A cleanup empties the list of its player and no other; one that fails leaves it. |
| TraceLog.InvariantHolds | internal/realm/admin/trace/lifecycle.go:50-110 | After any interleaving of captures, writes and finalizations, list and queue together hold each trace's accepted lines but the lost ones, in order. |
| TraceLog.WithinLimits | internal/realm/admin/trace/capture.go:45-62 | No trace exceeds its entry or byte limit, Bytes is the total length of the accepted lines, and the queue never exceeds its capacity. |
| TraceLog.FlushedIsComplete | internal/realm/admin/trace/lifecycle.go:97-110 | A persisted barrier has let every accepted line of its trace through. |
| TraceLog.UploadExact | internal/realm/admin/trace/finalize.go:53-89 | An uploaded file holds what the list held before plus the accepted lines not lost, in order; from an empty list it holds exactly Count lines if and only if no append failed. |
| TraceLog.UploadsEverything | internal/realm/admin/trace/finalize.go:21-89 | Without store failures every file holds exactly Count lines, numbered 1 to Count in order, all from within the window and about the first packets offered; a file not marked truncated has them all. |
| TraceLog.UploadedAtMostOnce | internal/realm/admin/trace/finalize.go:20-51 | No trace is uploaded twice. |
| TraceLog.FinalizeCompletes | internal/realm/admin/trace/finalize.go:21-89 | From every reachable state with room in the queue, finalizing an active trace uploads what its list held and every line still queued, in order, and leaves the trace gone and its list empty. |
| TraceLog.GiveUpReopens | internal/realm/admin/trace/finalize.go:36-45 | A finalization that gives up before the upload leaves the trace active and can be started again. |
| TraceLog.FrozenStep | internal/realm/admin/trace/capture.go:29-31 | A truncated or finalizing trace accepts nothing more. |

## Left out

- Store, Redis and socket failures: the permission store always answers, shared-cache
  deletes succeed, and a failed write of one frame is a flag on the queued item. Redis may be
  absent, unreachable for reads and writes, hold unreadable values, and expire entries at any
  time; the trace store and the uploads may fail at every call.
- Interleaved permission calls: each service call is one step. Validation and write are not
  one transaction in the code, so acyclic parents and cache coherence are not claimed for
  calls that overlap.
- The optimistic version check of `UpdateGroup`: within one step the version always matches.
- Unicode tables and UTF-8 decoding: letter-or-number and lower case are parameters and text
  is a sequence of runes with their byte widths.
- Version strings, badge URLs and whitespace trimming: parameters of the model.
- JSON: a shared entry is the value itself, or unreadable.
- Hexadecimal text around RSA blocks and keys: blocks are octet sequences.
- Randomness and primality tests: the random source is a sequence of octets, the values of a
  negotiation are given, and a generated key is one whose primes exist.
- Doubles are their 64-bit patterns.
- Constant-time behaviour and strength of the cryptography.
- Goroutine races inside one `SecureChannel` call between reading its fields and using the
  cipher, and the mutex of the RC4 stream.
- Loggers, what handlers and observers do, the timer of the heartbeat, and the mapping of
  disconnect reasons to packets and close codes.
- `BeginSecurity` and `ValidateAuthenticationSecurity`: sequences of calls that are modelled
  one by one.
- One permission check reads one clock value and finds Redis either up or down throughout.
- The error a disposer returns from `Disconnect`, and disconnect logging.
- A native handler that panics: in a plugin goroutine it is one that never returns, in the
  host goroutine it is not modelled.
- The `Intercept` wrapper that skips a disabled plugin altogether.
- Finalization by another process (the upload lock is an input), trace metadata, the reaper
  and the reconciliation of traces after a restart.
- Packets that pass while a trace is being finalized: they are not recorded even when the
  finalization fails, and do not count as offered.
- The rendered text of a trace file and of its lines: a line is its number, its length and an
  opaque rest.
- Effective node and perk listings, change events, and the badge and prefix lookups built on
  resolution.
- The connection registry, handler registry, plugin event hub, translations, configuration
  and dependency injection: only easy members.
- SocketReader.Reader.Receive: says what is dispatched, but not the handlers' reactions; a
  dispatch that fails ends the reader in the code.
- PluginLoader.LoadedXorSkipped: assumes that file paths contain a dot, as every path with the
  plugin extension does, since skipped files and skipped names share one map.
- Payload.EncodeOfDecode: does not model the quieting of signalling NaN bit patterns.
