# Zebrafish, modelled and verified in Dafny

Zebrafish is a small network appliance system. This project models the parts of it that
carry real logic and proves what they promise:

- **Compose projects** (`ComposeNetworks`, `ComposeRendered`, `ComposeOrder`, `ComposeNames`,
  `ComposeFixpoint`, `ComposeRuns`, `ComposeIssued`).
  The awk scanner that finds a compose file's networks, the worklist that orders projects so
  that providers come before joiners, the fixpoint it computes, and the start and stop runs
  over the order.
- **DNS cache and resolver** (`DnsMessage`, `DnsCache`, `DnsRuns`, `DohResolve`, `DohServed`). A
  bounded LRU with expiry against an unbounded map of latest puts, and the resolver that rewrites
  IDs and TTLs. The wire codec is a parameter; time is an input.
- **Timestamps** (`Calendar`, `Rfc3339`). Closed-form date arithmetic against a calendar stepped
  one day at a time, and the text of section 5.6 of RFC 3339.
- **Configuration editing** (`KeyPath`, `KeyPathGrammar`, `ConfigTree`, `ConfigSet`,
  `ConfigRemove`). The key-path scanner, writing with creation of missing tables, removal, and
  lookup.
- **Shell export** (`ShellExport`, `Schema`, `ShellEval`, `ShellArrays`, `ShellNameservers`,
  `ShellDiscovery`). Flattening a configuration into shell assignments, why no two share a name,
  a shell reader that gets every value and every array back, and two scripts that read them.
- **NBD supervisor** (`NbdHeal`). The endless check-and-repair loop as a state machine over
  environment choices: device sizes, probe results, pool health and the clock.

`Text` and `Prelude` (in `Text.dfy`) hold the decimal notation, the option type and the notion
of distinctness they share.
The whole project verifies with `dafny verify dfyconfig.toml`.

## Where the code and its own words differ

- The cache configuration says `max_ttl` overrides a higher upstream TTL. A response with answers
  whose counted TTLs all reach `max_ttl` is stored for `min_ttl` instead
  (`DnsCache.LongTtlStoredForMinimum`; `DnsCache.LifetimeExactly` gives the exact condition).
- A hit rewrites TTLs "to reflect remaining time": of answers only. Additional records count in
  the lifetime and are served with the TTLs they came with. Unless the lifetime was raised to the
  minimum, they reach past the end of the entry at every moment after the storing
  (`DohResolve.AdditionalsEndExactly`; `DohResolve.AdditionalOutlives` is a run). When re-encoding
  fails or changes the length the old bytes are served, with the upstream's own TTLs, which may
  reach past the end of the entry (`DohResolve.UnrewrittenTtlOutlives`; `DohResolve.SeenTtlsExactly`
  gives the exact condition).
- The start script says every network a container joins exists by the time it is started. From an
  empty machine and with no failures that holds exactly when nothing is stuck
  (`ComposeRuns.StartRunSafe`); in general, exactly when each project is supplied in order
  (`ComposeRuns.StartSafeExactlyWhen`). Two projects that join each other's network break it
  (`ComposeRuns.MutualJoinersUnsafe`).
- The stop script says no network is removed while a container of another project is attached.
  That holds exactly when every joiner of a network whose declarer is taken down can be entered
  too and comes after it in the order (`ComposeRuns.StopSafeExactlyWhen`). A joiner whose folder
  cannot be entered breaks it with the order right (`ComposeRuns.UnenterableJoinerUnsafe`); so do
  two folders whose names fold to the same project name (`ComposeRuns.TwoDeclarersUnsafe`,
  `ComposeRuns.FoldersCollide`).
- The supervisor rediscovers its devices at every turn, but in one shell: a field dropped from the
  configuration, or a whole section, keeps its earlier values
  (`ShellDiscovery.DroppedExportStays`, on the run `ShellDiscovery.RediscoverDropped` makes, and
  `ShellDiscovery.RemovedSectionStays`). `ShellDiscovery.DiscoversConfigured` and
  `ShellDiscovery.DiscoversConfiguredPools` give the exact conditions.
- Printing a parsed key path and parsing it again is the identity exactly when the printed text
  has no outer white space; `. b` is accepted and is a counterexample (`KeyPath.NormalFormFails`).
- `remove` succeeds and removes nothing when its path leads through an inline table
  (`ConfigRemove.InlineTableKept`; `ConfigRemove.RemovedIsAbsent` gives the exact condition).

## Model

| member | source | states |
|---|---|---|
| ComposeNetworks.Scanner.Line | rootfs-overlay/etc/init.d/S64compose:33-43 | one line keeps the awk variables in step with the declarative reading: block flag, pending entry, its mark, names printed so far |
| ComposeNetworks.Scanner.Scan | rootfs-overlay/etc/init.d/S64compose:26-46 | the state machine prints exactly the declarative reading of the `networks:` blocks |
| ComposeNetworks.NetworksPartition | rootfs-overlay/etc/init.d/S64compose:23-46 | "false" and "true" partition the named entries of every line sequence, each in file order, printing their names |
| ComposeNetworks.NetworksOfParts | rootfs-overlay/etc/init.d/S64compose:27-44 | a file cut at any top-level line reads as its two parts do: no state crosses it |
| ComposeNetworks.NamesSurviveRead | rootfs-overlay/etc/init.d/S64compose:77-80 | names are nonempty and free of blanks, so the `read -r` loop and its `-n` test pass them unchanged |
| ComposeRendered.WrittenFileReads | rootfs-overlay/etc/init.d/S64compose:23-46 | a file written out with a list of networks, among comments, blank and other lines and other sections, reads as exactly the joined names, or exactly the others, in order |
| ComposeRendered.EntryLineReads | rootfs-overlay/etc/init.d/S64compose:37-42 | a line of two blanks, a name and a colon names that network |
| ComposeRendered.MarkLineReads | rootfs-overlay/etc/init.d/S64compose:43-43 | an indented `external:` followed by `true` is a mark |
| ComposeRendered.NoteIsQuiet | rootfs-overlay/etc/init.d/S64compose:33-43 | comments, blank lines and other indented lines neither name nor mark a network |
| ComposeRendered.ExternalFalseDoesNot | rootfs-overlay/etc/init.d/S64compose:43-43 | `external: false` is no mark |
| ComposeRendered.ProjectOfWrittenFile | rootfs-overlay/etc/init.d/S64compose:23-46 | the project of such a file owns the unmarked names and joins the marked ones |
| ComposeNames.ProjectNameExactly | rootfs-overlay/etc/init.d/S64compose:14-21 | a project name has small letters, digits, `_` and `-` only; such a folder keeps its name, capitals count as small letters, other characters are dropped |
| ComposeNames.QualifiedExactly | rootfs-overlay/etc/init.d/S64compose:96-99 | each declared network is the project name, an underscore and its own name, in order |
| ComposeOrder.LoadProject | rootfs-overlay/etc/init.d/S64compose:23-46 | a file's own and joined networks are the two readings of its lines |
| ComposeOrder.Orderer.NetworkSatisfied | rootfs-overlay/etc/init.d/S64compose:55-64 | true exactly for networks provided so far or declared by nobody |
| ComposeOrder.Orderer.QualifiedNetworks | rootfs-overlay/etc/init.d/S64compose:96-99 | yields the full names of a project's own networks, skipping empty ones, in order |
| ComposeOrder.Orderer.IsReady | rootfs-overlay/etc/init.d/S64compose:87-91 | true exactly when every joined network is satisfied |
| ComposeOrder.Orderer.CollectAll | rootfs-overlay/etc/init.d/S64compose:74-81 | the global array becomes all networks declared by any input project, the provided ones start empty |
| ComposeOrder.Orderer.SweepOnce | rootfs-overlay/etc/init.d/S64compose:84-104 | one sweep moves the ready projects, each making its networks available to the ones after it, and reports progress exactly when it moved one |
| ComposeOrder.Orderer.OrderComposeProjects | rootfs-overlay/etc/init.d/S64compose:70-111 | returns the resolved projects and then the stuck ones, a permutation of its input, after at most as many sweeps as projects |
| ComposeOrder.SweepsPermute | rootfs-overlay/etc/init.d/S64compose:83-109 | sweeping neither drops nor doubles a project |
| ComposeFixpoint.OrderSplits | rootfs-overlay/etc/init.d/S64compose:55-110 | in the resolved part each joined and declared network is declared by a strictly earlier project; every stuck project joins a declared network that no resolved one provides |
| ComposeFixpoint.StuckBlockedByStuck | rootfs-overlay/etc/init.d/S64compose:83-109 | every stuck project joins a network declared by stuck projects only, one of them given |
| ComposeFixpoint.LeastFixpoint | rootfs-overlay/etc/init.d/S64compose:83-105 | the resolved set is the least fixed point of "all joined networks provided or undeclared" |
| ComposeFixpoint.UnblockedIsMonotone | rootfs-overlay/etc/init.d/S64compose:55-64 | providing more never blocks a project |
| ComposeFixpoint.OrderIndependent | rootfs-overlay/etc/init.d/S64compose:83-105 | every permutation of the input resolves, and leaves stuck, the same projects |
| ComposeFixpoint.OrderedInputKept | rootfs-overlay/etc/init.d/S64compose:83-105 | an input in which providers come first already is taken as it is, in one sweep |
| ComposeFixpoint.StuckInInputOrder | rootfs-overlay/etc/init.d/S64compose:106-109 | stuck projects come out in the order of the input |
| ComposeFixpoint.NothingStuckExactlyWhen | rootfs-overlay/etc/init.d/S64compose:66-110 | for every input, nothing is stuck exactly when the files can be ranked so that each joined and declared network has a declarer below its joiner, and exactly when the order puts a provider before every joiner |
| ComposeFixpoint.RankedResolves | rootfs-overlay/etc/init.d/S64compose:66-110 | if some rank strictly decreases along all joins, nothing is stuck |
| ComposeFixpoint.RankedExactlyWhen | rootfs-overlay/etc/init.d/S64compose:66-110 | with one declarer per network, nothing is stuck exactly when some rank decreases along all joins |
| ComposeFixpoint.ResolvedExactlyWhen | rootfs-overlay/etc/init.d/S64compose:66-110 | with one declarer per network, the order puts every declarer before its joiners exactly when some rank decreases along all joins, and exactly when nothing is stuck |
| ComposeRuns.Runner.DoStart | rootfs-overlay/etc/init.d/S64compose:142-173 | issues a create for every enterable project in order, then a start for each |
| ComposeRuns.Runner.DoStop | rootfs-overlay/etc/init.d/S64compose:184-226 | issues every stop in reverse order, then each project's down followed by the removal of its networks, in reverse order |
| ComposeRuns.Runner.RemoveLeftovers | rootfs-overlay/etc/init.d/S64compose:222-225 | removes each of a project's own networks by full name, in order |
| ComposeIssued.StartRunIssues | rootfs-overlay/etc/init.d/S64compose:142-173 | a start run creates and starts exactly the enterable projects of the input, each once in the computed order, every create before every start, and issues nothing else |
| ComposeIssued.StopRunIssues | rootfs-overlay/etc/init.d/S64compose:187-226 | a stop run stops and takes down exactly the enterable projects, each once in the reverse order, every stop first, and removes exactly the networks they declare, each project's right after its down |
| ComposeRuns.StartSafeExactlyWhen | rootfs-overlay/etc/init.d/S64compose:144-173 | a start run, with any folders enterable and any commands failing, never creates or starts a project before the declared networks it joins exist, exactly when each is there beforehand or created by an earlier project |
| ComposeRuns.StartRunSafe | rootfs-overlay/etc/init.d/S64compose:142-173 | from an empty machine, with no failures, the start run over the computed order is safe exactly when nothing is stuck, hence exactly when the files can be ranked |
| ComposeRuns.MutualJoinersUnsafe | rootfs-overlay/etc/init.d/S64compose:83-109 | two projects that join each other's network: something is stuck, and a project is created before the network it joins exists |
| ComposeRuns.StartSafe | rootfs-overlay/etc/init.d/S64compose:144-173 | a resolved project is safe whatever else is stuck or fails, once the declarers of its networks can be entered and created |
| ComposeRuns.AllStoppedFirst | rootfs-overlay/etc/init.d/S64compose:195-226 | when any project is taken down, or a network removed, exactly the projects whose folder can be entered have been stopped |
| ComposeRuns.StopSafeExactlyWhen | rootfs-overlay/etc/init.d/S64compose:187-226 | whatever folders can be entered, no network is removed until every joiner has been taken down, exactly when every joiner of an enterable declarer can be entered and comes after it |
| ComposeRuns.StopRunSafe | rootfs-overlay/etc/init.d/S64compose:184-226 | with one declarer per network, and declarers that can be entered, the stop run is safe exactly when all joiners can be entered and some rank decreases along all joins, that is, nothing is stuck |
| ComposeRuns.UnenterableJoinerUnsafe | rootfs-overlay/etc/init.d/S64compose:198-211 | one declarer, nothing stuck and the order right, but the joiner cannot be entered: its network is removed under it |
| ComposeRuns.FoldersCollide | rootfs-overlay/etc/init.d/S64compose:14-21 | folders `a.b` and `ab` declare the same full network name |
| ComposeRuns.TwoDeclarersUnsafe | rootfs-overlay/etc/init.d/S64compose:187-226 | with two declarers of a network nothing is stuck, yet the stop run removes it under its joiner |
| DnsMessage.CacheKeyExactly | package/zebrafish-dns/src/cache.rs:31-45 | two queries share a key exactly when lowercased and printed name, type and class agree |
| DnsMessage.CacheKeyIgnoresCase | package/zebrafish-dns/src/cache.rs:31-45 | where no two names print alike, two queries share a key exactly when their names agree but for letter case, and types and classes agree |
| DnsMessage.AdjustTtls | package/zebrafish-dns/src/cache.rs:112-124 | rewrites the buffer in place to the re-encoded message when its length is the same, else leaves it |
| DnsCache.Cache.constructor | package/zebrafish-dns/src/cache.rs:22-29 | an empty cache whose capacity is the configured one, at least one |
| DnsCache.Cache.Get | package/zebrafish-dns/src/cache.rs:48-66 | a live entry is promoted and returned with its remaining seconds as answer TTLs; an expired one is removed and misses |
| DnsCache.Cache.Put | package/zebrafish-dns/src/cache.rs:69-87 | stores the response with its clamped lifetime, promoting or inserting, dropping the least recent slot of a full cache |
| DnsCache.Cache.ExtractMinTtl | package/zebrafish-dns/src/cache.rs:89-109 | the loops compute the least TTL over all answers and non-OPT additionals, with the two fallbacks to the minimum |
| DnsCache.LifetimeBounds | package/zebrafish-dns/src/cache.rs:75-76 | a stored lifetime lies within the limits and is the minimum or no longer than any counted record TTL |
| DnsCache.LifetimeByTtls | package/zebrafish-dns/src/cache.rs:75-109 | the stored lifetime of every response, told of the TTLs of its answers and non-OPT additionals and the two limits |
| DnsCache.LifetimeExactly | package/zebrafish-dns/src/cache.rs:89-109 | the lifetime is the clamped least TTL exactly unless there are answers, all counted TTLs reach the maximum, and the limits differ |
| DnsCache.LongTtlStoredForMinimum | package/zebrafish-dns/src/cache.rs:101-102 | a single answer whose TTL reaches the maximum is stored for the minimum |
| DnsCache.RewrittenTtl | package/zebrafish-dns/src/cache.rs:53-62 | the seconds left that a hit computes never reach past expiry and never rise between hits on one entry |
| DnsRuns.RunRefines | package/zebrafish-dns/src/cache.rs:48-87 | over every run the cache holds at most its capacity, one slot a key, and only latest puts |
| DnsRuns.HitIsLatest | package/zebrafish-dns/src/cache.rs:48-66 | every hit is the latest put for its key, and unexpired |
| DnsRuns.RecentKeyHits | package/zebrafish-dns/src/cache.rs:48-87 | a key whose latest put has a lifetime that has not ended is a hit whenever fewer than capacity other keys were put or hit since its own last put or hit |
| DnsRuns.ExpiredIsRemoved | package/zebrafish-dns/src/cache.rs:50-58 | after a get a key is in the cache exactly when the get was a hit |
| DohResolve.Consult | package/zebrafish-dns/src/doh.rs:137-168 | the first half of a call: decoding, cache consult and ID rewrite, with every error path |
| DohResolve.Complete | package/zebrafish-dns/src/doh.rs:174-209 | the second half: the upstream reply, the store and the ID rewrite |
| DohResolve.Resolve | package/zebrafish-dns/src/doh.rs:137-209 | the two halves as one call, with any operations of other calls on the cache between them |
| DohResolve.EventsAreOps | package/zebrafish-dns/src/doh.rs:153-195 | any interleaving of calls drives the cache as a run of gets and puts, so the cache's guarantees carry over |
| DohResolve.ReplyIsUpstreams | package/zebrafish-dns/src/doh.rs:137-209 | on every interleaved run a reply starts with the caller's ID and is from its third byte on its own upstream body; or it is the body of the live entry it is served from, stored by an earlier completion with the same key, put through the TTL rewriting with exactly the seconds it has left, and from its third byte on unchanged where that does not take |
| DohResolve.FailsExactlyWhen | package/zebrafish-dns/src/doh.rs:142-190 | a call fails exactly when its query cannot be decoded, or upstream does not reply with a status from 200 to 299 |
| DohServed.StoredIsServed | package/zebrafish-dns/src/doh.rs:153-195 | on every interleaved run a stored reply is served to every later query for its key, while it lives, nothing newer is stored under it and fewer than capacity other keys come by |
| DohResolve.SameEntryServed | package/zebrafish-dns/src/cache.rs:48-87 | two hits of a run on one key, with nothing stored under it between them, are served from the same entry |
| DohResolve.CachedReplyMessage | package/zebrafish-dns/src/doh.rs:153-168 | decoded, a cached reply is exactly the upstream message under the caller's ID; its answers are as many as upstream's, each with its own data, and with the seconds left as TTL where the rewriting takes and its own TTL elsewhere |
| DohResolve.TakesExactly | package/zebrafish-dns/src/cache.rs:117-122 | the rewriting takes exactly when the message with those answers encodes to as many bytes |
| DohResolve.SeenTtlsExactly | package/zebrafish-dns/src/cache.rs:112-124 | the answer TTLs a caller sees are the seconds left, and end with the entry, exactly when re-encoding succeeds with the same length or they already did |
| DohResolve.CachedReplyOnRuns | package/zebrafish-dns/src/doh.rs:137-209 | for every cached reply of every interleaved run: the message it decodes to, answer by answer, and when the TTLs of its answers, and all its TTLs, end with the entry |
| DohResolve.SeenTtlsNeverRise | package/zebrafish-dns/src/cache.rs:53-65 | where taking the rewriting does not depend on the number, the TTLs callers see never rise between hits on one entry |
| DohResolve.RepliesNeverRise | package/zebrafish-dns/src/doh.rs:153-168 | of two cached replies of a run for one key, with nothing stored under it between them and an ordered clock, the later decodes to answers of no greater TTL |
| DohResolve.AdditionalsEndExactly | package/zebrafish-dns/src/cache.rs:96-100 | unless the lifetime was raised to the minimum, additional records end with the entry only at the moment of storing, and there exactly when their TTL is the lifetime |
| DohResolve.UnrewrittenTtlOutlives | package/zebrafish-dns/src/cache.rs:118-122 | a lawful codec and a run in which re-encoding shortens the reply, so that it keeps a TTL past the end of its entry |
| DohResolve.AdditionalOutlives | package/zebrafish-dns/src/cache.rs:112-122 | a run in which the rewriting takes, and the additional record of the reply still reaches past the end of its entry |
| Calendar.DaysToDateIsStepped | package/zebrafish-dns/src/query_log.rs:157-169 | for every day count the month and day are those of the stepped calendar and the year agrees modulo 2^32; the whole date agrees exactly when the year fits in an i32 |
| Calendar.ClosedFormIsStepped | package/zebrafish-dns/src/query_log.rs:157-168 | before narrowing, the closed form is the calendar stepped one day at a time from 1970-01-01 |
| Calendar.SuccessorDate | package/zebrafish-dns/src/query_log.rs:157-168 | the date is always valid and consecutive day counts give successor dates |
| Calendar.WideDateInverts | package/zebrafish-dns/src/query_log.rs:157-168 | days-from-date gives back the day count |
| Calendar.DateRoundTrip | package/zebrafish-dns/src/query_log.rs:157-168 | the closed form gives back every valid date from 1970 on |
| Rfc3339.ReadBack | package/zebrafish-dns/src/query_log.rs:141-155 | up to the year 9999, reading the fields of a timestamp recovers the instant |
| Rfc3339.TimestampText | package/zebrafish-dns/src/query_log.rs:141-155 | up to the year 9999 the text has 24 characters, with year, month, day, hour, minute, second and milliseconds in their columns and `-`, `T`, `:`, `.` and `Z` between them |
| Rfc3339.OtherYears | package/zebrafish-dns/src/query_log.rs:148-154 | a year from 10000 on is written whole, a negative one with its sign |
| Rfc3339.TimestampOrder | package/zebrafish-dns/src/query_log.rs:141-155 | up to the year 9999, timestamps compare as strings exactly as the instants do in milliseconds |
| KeyPath.ParseKeyPath | package/zebrafish-config/src/path.rs:41-116 | the character loop computes the scan, with every rejection |
| KeyPath.TrimExactly | package/zebrafish-config/src/path.rs:42-42 | trimming takes exactly the white space off both ends |
| KeyPathGrammar.AcceptedExactlyWhen | package/zebrafish-config/src/path.rs:41-116 | a text is accepted with given segments exactly when, less outer white space, it is spelled by dots, names and bracketed indices below 2^64 that mean them, no two names touching |
| KeyPath.AcceptedAreWellFormed | package/zebrafish-config/src/path.rs:41-116 | every accepted text yields nonempty fields free of separators and indices below 2^64 |
| KeyPath.PrintThenParse | package/zebrafish-config/src/path.rs:41-116 | parsing a printed path gives its segments back exactly when the text has no outer white space |
| KeyPath.NormalForm | package/zebrafish-config/src/path.rs:41-116 | printing is a stable normal form of an accepted text under that same condition |
| KeyPath.NormalFormFails | package/zebrafish-config/src/path.rs:41-116 | `. b` is accepted and its printed form parses to something else |
| ConfigTree.WalkAppend | package/zebrafish-config/src/path.rs:137-157 | looking up a path is looking up its front and then its rest from there |
| ConfigSet.Document.Apply | package/zebrafish-config/src/set.rs:41-78 | edits the document in place as specified, also when it fails half way |
| ConfigSet.SetSucceedsExactlyWhen | package/zebrafish-config/src/set.rs:41-141 | a set succeeds exactly on two or more names that meet only ordinary or missing tables, or such names below an existing element of an array of tables |
| ConfigSet.SetIsFound | package/zebrafish-config/src/set.rs:41-141 | after a successful set the path looks up the written value |
| ConfigSet.SetReadsBack | package/zebrafish-config/src/set.rs:41-141 | a text, a number, a flag or an array is read back as it was written |
| ConfigSet.FailedSetWritesNothing | package/zebrafish-config/src/set.rs:41-141 | a failed set writes nothing at its path or below |
| ConfigSet.SetElsewhere | package/zebrafish-config/src/set.rs:41-141 | every path neither a prefix nor an extension of it looks up as before, through created tables and on failure too |
| ConfigSet.SetsCommute | package/zebrafish-config/src/set.rs:41-141 | two sets on incomparable paths that each succeed also succeed in sequence and leave the same document in either order |
| ConfigRemove.RemoveSucceedsExactlyWhen | package/zebrafish-config/src/remove.rs:39-106 | a remove fails exactly when its path does not start with a name, or indexes into an entry that exists and goes on below the index |
| ConfigRemove.RemovedIsAbsent | package/zebrafish-config/src/remove.rs:39-106 | after a successful remove of a named entry its path is absent exactly when it was before or ordinary tables lead to it |
| ConfigRemove.InlineTableKept | package/zebrafish-config/src/remove.rs:66-73 | a name in an inline table: the remove succeeds, and the document and the value stay |
| ConfigRemove.RemoveElsewhere | package/zebrafish-config/src/remove.rs:39-106 | paths apart from the removed one look up as before |
| ConfigRemove.OneElementGone | package/zebrafish-config/src/remove.rs:74-84 | removing an element in range leaves one element less, those before it in place and those after it one place down |
| ConfigRemove.OutOfRangeKeepsAll | package/zebrafish-config/src/remove.rs:74-84 | an index out of range succeeds and leaves the document as it was |
| ConfigRemove.RemoveChangesExactlyWhen | package/zebrafish-config/src/remove.rs:39-106 | a successful remove changes the document exactly when its path looked something up and ordinary tables lead there |
| ConfigRemove.FailedRemoveKeepsAll | package/zebrafish-config/src/remove.rs:39-106 | a failed remove leaves the document as it was |
| ConfigRemove.ElementsShift | package/zebrafish-config/src/remove.rs:74-84 | any path below the array looks up what it did at the index before the shift |
| ConfigRemove.SetThenRemove | package/zebrafish-config/src/set.rs:105-141 | setting and then removing a named path restores the document exactly when it was absent under existing ordinary tables |
| ShellExport.EmitShell | package/zebrafish-config/src/list.rs:74-99 | prints one line for every scalar leaf and every array count, each once, under the joined name, and nothing else |
| ShellExport.FoldExactly | package/zebrafish-config/src/list.rs:78-78 | a folded key is the key but for letter case and hyphens, without small letters or hyphens |
| ShellExport.FoldClashExactly | package/zebrafish-config/src/list.rs:78-78 | two keys fold alike exactly when they differ in nothing else |
| ShellExport.ScalarTextExactly | package/zebrafish-config/src/list.rs:91-97 | flags print as `true` and `false`, numbers in decimal with a minus when negative |
| ShellExport.QuotedExactlyWhen | package/zebrafish-config/src/list.rs:101-109 | a text is printed unquoted exactly when it has only letters, digits and seven marks |
| Schema.NamesDiffer | package/zebrafish-config/src/list.rs:74-99 | leaves of a conforming tree of separable shape have names that differ after their common prefix |
| Schema.ConfigIsSeparable | package/zebrafish-config/src/schema.rs:9-216 | the schema keeps its folded keys apart, `wg` and `wg-server` included |
| ShellEval.VariablesDiffer | package/zebrafish-config/src/list.rs:74-99 | distinct leaves and counts get distinct variable names |
| ShellEval.KeysCanClash | package/zebrafish-config/src/list.rs:78-78 | outside the schema `a-b` and `a_b` would share a name |
| ShellEval.QuoteRoundTrip | package/zebrafish-config/src/list.rs:101-109 | for every string, the shell reads back from the quoted word exactly that string |
| ShellEval.EvalScript | package/zebrafish-config/src/list.rs:84-97 | evaluating a script of readable lines assigns their values in order |
| ShellArrays.ListAndEval | package/zebrafish-config/src/list.rs:30-69 | in a shell with any variables, evaluating the export of the whole configuration or of a section sets every leaf's variable to its value and changes no other; an absent section changes nothing |
| ShellArrays.ReadArray | rootfs-overlay/etc/init.d/S12ip:40-48 | collects the indexed variables below the count, in order |
| ShellArrays.ElementsRecovered | rootfs-overlay/etc/init.d/S12ip:36-48 | for every exported array of scalars, count and indexed variables give back exactly its elements |
| ShellNameservers.SpacedIsJoined | rootfs-overlay/etc/init.d/S12ip:39-48 | the loop joins the values with spaces, less empty ones at the front |
| ShellNameservers.WordsOfJoined | rootfs-overlay/etc/init.d/S12ip:39-48 | the words of the joined text are the values, exactly when each value is one word |
| ShellNameservers.Nameservers | rootfs-overlay/etc/init.d/S12ip:36-48 | export, eval and the loop yield the configured name servers joined with spaces, in a shell with any variables |
| ShellDiscovery.Discover | rootfs-overlay/etc/nbd-heal/nbd-heal:62-86 | two evals in one shell, then the loops over the numbered fields with their defaults |
| ShellDiscovery.FirstDiscovery | rootfs-overlay/etc/nbd-heal/nbd-heal:62-86 | in a fresh shell the first discovery yields the devices and pools configured |
| ShellDiscovery.RunReadsLatest | rootfs-overlay/etc/nbd-heal/nbd-heal:62-86 | on every run of discoveries, each field and count reads as the latest configuration of the run that said anything of it |
| ShellDiscovery.DiscoversConfigured | rootfs-overlay/etc/nbd-heal/nbd-heal:62-86 | at every turn the devices discovered are those configured exactly when nothing earlier shows through: the section is present or was last empty, and no record lacks a field that was last given another value than the default |
| ShellDiscovery.DiscoversConfiguredPools | rootfs-overlay/etc/nbd-heal/nbd-heal:79-86 | the same for the pools and their names |
| ShellDiscovery.NamedPoolsDiscovered | rootfs-overlay/etc/nbd-heal/nbd-heal:79-86 | where every pool is named, the pools discovered are those configured exactly when the section is present or was last empty |
| ShellDiscovery.RediscoverDropped | rootfs-overlay/etc/nbd-heal/nbd-heal:62-86 | two discoveries from an empty shell, the export name dropped between them: the second yields it |
| ShellDiscovery.DroppedExportStays | rootfs-overlay/etc/nbd-heal/nbd-heal:65-77 | an export name dropped from the configuration is still used |
| ShellDiscovery.RemovedSectionStays | rootfs-overlay/etc/nbd-heal/nbd-heal:65-77 | when the section is removed, count and devices stay as they were |
| NbdHeal.Supervisor.Repair | rootfs-overlay/etc/nbd-heal/nbd-heal:144-217 | the three steps of a repair: attach attempts, transport check, and for each pool the clear or the wedged verdict |
| NbdHeal.Supervisor.Cycle | rootfs-overlay/etc/nbd-heal/nbd-heal:236-269 | one turn of the loop on the failure count and the two time stamps |
| NbdHeal.RepairAttaches | rootfs-overlay/etc/nbd-heal/nbd-heal:149-161 | a repair tries to connect exactly the devices that are not attached, in order and each once |
| NbdHeal.WedgedExactlyWhen | rootfs-overlay/etc/nbd-heal/nbd-heal:173-216 | a repair ends wedged exactly when it found a pool suspended and a device was missing or silent, or a clear was issued in the last 300 seconds, or the clear failed, or the pool was not online after it |
| NbdHeal.LatestRepairDecides | rootfs-overlay/etc/nbd-heal/nbd-heal:264-265 | the latest repair of a run alone decides whether the wedged window is open |
| NbdHeal.HealthyExactly | rootfs-overlay/etc/nbd-heal/nbd-heal:239-245 | a check is bad unless every device is attached and no pool is suspended |
| NbdHeal.ClearNeedsTransport | rootfs-overlay/etc/nbd-heal/nbd-heal:163-213 | a clear is issued only in a repair in which every device was attached and answered, for a pool found suspended |
| NbdHeal.ClearsExactlyWhen | rootfs-overlay/etc/nbd-heal/nbd-heal:173-213 | a repair clears a pool exactly when it is suspended, the transport is verified and no clear of any pool was issued in the last 300 seconds |
| NbdHeal.ClearsOnce | rootfs-overlay/etc/nbd-heal/nbd-heal:173-213 | a repair clears its pools in order, each at most once |
| NbdHeal.ClearsAreApart | rootfs-overlay/etc/nbd-heal/nbd-heal:191-199 | on every run any two clears, on any pools, are at least 300 seconds apart |
| NbdHeal.RepairsExactlyWhen | rootfs-overlay/etc/nbd-heal/nbd-heal:234-269 | on every run a turn repairs exactly when it and the two before were bad with no repair between, and no wedged repair ended within 600 seconds |

## Left out

- ComposeOrder.LoadProject: each file is scanned once where the script scans it at every look, so a file changing during a run is not modelled; `dirname` and `basename` are not part of this model, the folder name is given.
- ComposeOrder.Orderer.OrderComposeProjects: with no files the script's `printf` prints one blank line; here the result is empty. Shell word splitting of file paths is not modelled.
- ComposeRuns.StopSafeExactlyWhen: speaks of the commands issued; what a failing `docker compose down` leaves behind is Docker's.
- ComposeOrder.ProjectName: lower-casing is modelled for ASCII letters; other characters are removed either way.
- ComposeRuns.Runner.DoStart: the once-per-boot removal of orphaned containers, the `pull` command and the waiting for containerd are not modelled.
- DnsCache.Cache.Get: the mutex, whose poisoning is a miss, is not modelled; the LRU library is modelled as a list with the most recent slot first.
- DnsMessage.CacheKeyExactly: how the DNS library prints a name is a parameter, as the codec is; lower-casing is modelled for ASCII letters.
- DnsMessage.AdjustTtls: the wire codec is a parameter; what is claimed of decoded messages asks for a codec that is undone by decoding and keeps the ID in the first two bytes.
- DohResolve.Resolve: the HTTP, TLS and bootstrap parts, sockets and tasks are an environment choice; calls interleave at the wait for upstream, and each half works on the cache in one piece.
- Calendar.DaysToDate: day counts whose sum with 719468 overflows an i64 are excluded; the timestamp never reaches them.
- KeyPath.ParseUsize: the leading plus sign that the standard library accepts cannot reach it.
- ConfigSet.SetInTable: nested tables are rebuilt where the program updates them through exclusive references; key order and formatting of the document are not modelled.
- ConfigRemove.RemoveInItem: nested items are rebuilt, in the same way.
- ConfigTree.Lookup: `get` reads the document through the typed schema, which drops unknown keys and rejects mistyped ones; here paths are looked up in the tree itself.
- ConfigTree.Value: floats and dates are left out, and so is the guessing of a value's type from its text in `parse_value`.
- ShellExport.EmitShell: the entries of a table come in an arbitrary order where the program takes them sorted; upper-casing is modelled for ASCII letters.
- ShellEval.Eval: only assignments are read; any special character outside quotes makes it give up. The stripping of trailing newlines by command substitution cannot affect such a text. It also drops NUL characters, so for values that hold one the round trip is of the text printed, not of what a script sees.
- ShellDiscovery.Discover: a record of the schema must have its address, port and device; the model allows it to lack them.
- NbdHeal.Supervisor.Cycle: the first discovery, which ends the program when no device is configured, the lock, logging and sleeping are not modelled; the configuration may change at every turn.
- NbdHeal.ClearsAreApart: times are the clock readings the script stores, in whole seconds.
- S44wg as a reader of counts: it counts the lines that match `WG_COUNT=`, not the value, so nothing is claimed of it.
- File access, EFI discovery, validation, command-line parsing, the NSS module, the DNS server loop, build scripts and system setup: plumbing without properties of this kind.
