# resin-discoverable-services, modelled in Dafny

This project models the core of `resin-discoverable-services`, a Node.js
library that finds and advertises DNS-SD services over mDNS.
`build/discoverable.js` does four things:

- It keeps a **registry** of service types. This is a directory tree where
  every leaf directory defines one service. The path `a/b/c` gives the
  identifier `_a._sub._b._c`, and any other depth gives `_a._b` from the
  first two components. A leaf may hold an optional `tags.json` array of
  tags.
- It loads the registry once and memoises the outcome.
- It resolves a caller's string (an identifier or a tag) to a registry
  entry. It then splits that entry's identifier with the pattern
  `^(_(.*)\._sub\.)?_(.*)\._(.*)$` into subtypes, type and protocol.
- It browses for services (`findServices`) or publishes them
  (`publishServices`, `unpublishServices`) through an mDNS engine.

`versionist.conf.js` holds the changelog hooks of the release tool:
- which commits enter the changelog (`Change-Type` footer);
- the increment level a commit asks for;
- the issue link derived from a `Connects-To` footer.

Modules:

- `Common` (common.dfy): options, results and the errors the library raises, without their message texts.
- `Registry` (registry.dfy): the registry walk, the identifier builder, the tags files and the catalog. It has a function specification (`Scan`, `BuildCatalog`, `LoadRegistry`) and the loader's loops as methods proved equal to it.
- `Resolver` (resolver.dfy): `findValidService`, and the pattern match written out as greedy, backtracking search over the identifier. It includes `determineServiceInfo`.
- `Identifiers` (identifiers.dfy): what the pattern does with the identifiers the loader builds. It covers the round trip from path components, through the identifier, back to the groups.
- `Discovery` (discovery.dfy): the network-interface check, the argument checks of `findServices`, the browses it plans, and the flattening of what they collect.
- `Publication` (publication.dfy): what `publishServices` decides for each caller-supplied object.
- `Process` (process.dfy): the module state as a class. It holds the registry path, the memo cache, the publishing session, and a log of the calls made to the mDNS engine. Its public operations are methods proved against the functions above.
- `Changelog` (changelog.dfy): the three versionist hooks. It includes ECMAScript's `String.prototype.trim`, and the in-place update of the commit objects.

The file system, the network interfaces and the records the network
delivers are parameters of the operations that read them. The mDNS engine is
represented by the calls made to it, recorded in `Process.Discoverable.log`.

Behaviours of the source that are easy to misread, and that the model keeps:

- `setRegistryPath` accepts the empty string. Only a value that is not a string is rejected.
- A failed registry load is memoised like a successful one. Later calls give the same failure until `setRegistryPath` clears the cache; they do not retry the load.
- A registry identifier that the pattern rejects makes `determineServiceInfo` read `types[1]` of `null`. The resulting `TypeError` is modelled as `NoMatch`.
- The depth guard at build/discoverable.js:75 (`length >= 2 || length <= 3`) is always true. Every leaf therefore gets an identifier, and missing components read as `"undefined"`.

## Model

| member | source | states |
|---|---|---|
| Registry.Scan | build/discoverable.js:47-67 | the walk specification: it fails only with a read error, and a successful walk reports at least one leaf, each under the path walked from |
| Registry.ScanChildren | build/discoverable.js:62-64 | the walk into a directory's subdirectories fails only with a read error, reports at least one leaf when there is a subdirectory, and puts every leaf strictly below the directory |
| Registry.Subdirectories | build/discoverable.js:49-57 | the collected directories are exactly the listed entries that `stat` reports as directories |
| Registry.CollectDirectories | build/discoverable.js:50-57 | the `stat` pass gives the subdirectories in listing order when every `stat` succeeds, and fails when any `stat` fails |
| Registry.ScanSound | build/discoverable.js:47-67 | every leaf a successful walk reports is a directory without subdirectories, reached from the root by the leaf's path and carrying its tags file |
| Registry.ScanChildrenSound | build/discoverable.js:62-64 | the same, for the leaves found below the subdirectories of one directory |
| Registry.ScanComplete | build/discoverable.js:47-67 | every leaf directory reachable from the root is reported by a successful walk, with its path and tags file |
| Registry.ScanChildrenComplete | build/discoverable.js:62-64 | the same, for the walk into the subdirectories of one directory |
| Registry.ScanDirectory | build/discoverable.js:47-67 | `scanDirectory` appends to the found paths exactly the leaves of the walk specification, and fails when a `readdir` or `stat` fails |
| Registry.ScanEach | build/discoverable.js:62-64 | walking the found directories in turn appends the leaves below each of them, in order, and stops at the first failure |
| Registry.ServiceName | build/discoverable.js:75-82 | every identifier starts with `_`. A path deeper than three keeps only its first two components, and a path shorter than two ends in `._undefined` |
| Registry.TagsOf | build/discoverable.js:83-95 | a tags file is rejected exactly when it cannot be read for a reason other than ENOENT, does not parse, or is not an array. Otherwise the tags are the array, or `[]` for a missing file |
| Registry.LeafEntry | build/discoverable.js:72-101 | one leaf gives an entry exactly when its tags file is missing or an array. The entry's identifier is built from the path and its tags come from the file. The error for a bad file names that identifier |
| Registry.DefineService | build/discoverable.js:72-101 | one found path gives the identifier built from its components and its tags. The tags are `[]` for a missing `tags.json`, and the load fails, naming the identifier, for any other bad tags file |
| Registry.BuildCatalog | build/discoverable.js:69-103 | building the catalog fails only with a tags error, and a successful build has one entry per leaf |
| Registry.BuildCatalogEntries | build/discoverable.js:69-103 | the catalog has one entry per leaf, in order, each with its identifier and tags. The load fails exactly when a tags file is bad, and the error names the first such leaf |
| Registry.LoadRegistry | build/discoverable.js:44-105 | an unreadable registry root fails with a read error, and any failure is a read error or a tags error |
| Registry.RetrieveServices | build/discoverable.js:44-105 | `retrieveServices` yields exactly the catalog specified by the walk and the per-leaf entries, failure included |
| Resolver.FindValidService | build/discoverable.js:116-122 | the result is the first catalog entry whose identifier or one of whose tags equals the string. The result is nothing exactly when no entry matches |
| Resolver.LastIndexOf | build/discoverable.js:134 | the greedy `(.*)` before `\._` stops at the last occurrence of `._` in range, and there is none exactly when no occurrence exists |
| Resolver.LastSubtypeSplit | build/discoverable.js:134 | the optional subtype group ends at the rightmost `._sub.` after which the rest of the pattern still matches, and is absent when no such point exists |
| Resolver.MatchIdentifier | build/discoverable.js:134 | a match needs a string that starts with `_`. MatchReassembles and MatchComplete state what it accepts and what its groups are |
| Resolver.DetermineServiceInfo | build/discoverable.js:131-145 | it throws exactly when the identifier does not match. Otherwise type and protocol are always defined, and there is at most one subtype |
| Identifiers.MatchReassembles | build/discoverable.js:131-145 | the groups of every successful match, written back into the pattern, give the matched identifier |
| Identifiers.MatchComplete | build/discoverable.js:134 | every string of the pattern's shape that has no line terminator matches |
| Identifiers.RoundTripSubtyped | build/discoverable.js:78-82 | `_a._sub._b._c` built from dot-free components matches with subtype `a`, type `b` and protocol `c` |
| Identifiers.RoundTripPlain | build/discoverable.js:82 | `_a._b` built from dot-free components matches with no subtype, type `a` and protocol `b` |
| Identifiers.RoundTrip | build/discoverable.js:76-82 | the identifier built from any plain leaf path matches. `a/b/c` gives back subtype `a`, type `b` and protocol `c`. Any other depth gives back only the first two components, as type and protocol, with `undefined` for a missing one, so `a/b/c/d` gives back `a` and `b` |
| Identifiers.ServiceInfoRoundTrip | build/discoverable.js:131-145 | `determineServiceInfo` on an entry built from a plain path gives subtypes `[a]`, type `b` and protocol `c` for `a/b/c`, and `[]`, `a` and `b` otherwise |
| Identifiers.PlainRegistryParses | build/discoverable.js:69-103 | in a registry whose directory names have no dots or line terminators, every catalog entry comes from a plain path and parses |
| Discovery.AnyExternal | build/discoverable.js:156-158 | an interface qualifies exactly when one of its addresses is not internal |
| Discovery.HasValidInterfaces | build/discoverable.js:154-160 | the check holds exactly when some address of some interface is not internal |
| Discovery.CheckFindArgs | build/discoverable.js:235-247 | the argument checks run in the source's order: a non-number timeout, then a non-array, then no usable interface. A missing timeout becomes 2000 ms, and the checks pass exactly when none of them fails |
| Discovery.StepFor | build/discoverable.js:271-277 | a string whose lookup finds nothing is skipped. An entry whose identifier does not match throws with that identifier. Any other entry starts exactly one browse, that of the entry |
| Discovery.Plan | build/discoverable.js:270-278 | the `forEach` starts at most one browse per string, and its only possible throw is an identifier the pattern rejects |
| Discovery.Resolved | build/discoverable.js:270-272 | the resolved entries are catalog entries, at most one per string |
| Discovery.PlanIsOverResolved | build/discoverable.js:270-278 | strings that resolve to nothing are skipped without error, so the browse plan is the plan over the resolved entries |
| Discovery.PlanEntriesBrowses | build/discoverable.js:270-278 | the plan stops with the error of the first resolved entry whose identifier does not parse, or raises nothing. Before that point each entry gets exactly one browse, in order, tagged with the entry's own identifier |
| Discovery.PlanAppend | build/discoverable.js:270-278 | the plan for `a + b` is the plan for `a`, followed by the plan for `b` when `a` raised nothing |
| Discovery.EmptyRequest | build/discoverable.js:270-278 | an empty request starts no browse and raises nothing |
| Discovery.Decide | build/discoverable.js:271-277 | the `forEach` body makes the step the plan specifies for that string |
| Discovery.PlanBrowses | build/discoverable.js:270-278 | the `forEach` pushes exactly the planned browses, in order, and stops at the planned error |
| Discovery.Collect | build/discoverable.js:257-260 | one browser's list holds every record it received, in order, each tagged with the browse's identifier, and no `null` |
| Discovery.Flatten | build/discoverable.js:280 | every element of every list appears in the flattened list |
| Discovery.NonNull | build/discoverable.js:281-283 | removing the `null` entries never lengthens the list |
| Discovery.NonNullMembers | build/discoverable.js:281-283 | a value is in the filtered list exactly when it is a non-`null` entry of the original |
| Discovery.Aggregate | build/discoverable.js:280-284 | flattening and removing `null` entries keeps every other entry, in order |
| Discovery.AggregateIsTagged | build/discoverable.js:257-284 | the callback never pushes `null`, so the result is every record received, browse after browse, each tagged with its browse's identifier |
| Discovery.TaggedMembers | build/discoverable.js:257-260 | every result is a record that some browse received, tagged with that browse's identifier |
| Discovery.TaggedCount | build/discoverable.js:279-284 | the number of results is the number of records received |
| Discovery.ResultsCarryCanonicalService | build/discoverable.js:272-275 | every result is tagged with the identifier of the catalog entry a requested string resolved to |
| Discovery.PlainRegistryPlansEveryResolved | build/discoverable.js:267-278 | over a plain registry, every resolved string gets its browse and the plan raises nothing |
| Publication.PublishDecision | build/discoverable.js:320-336 | a `null` or `undefined` element throws when its `identifier` is read. The only other throw is for an object whose identifier resolves to an entry the pattern rejects, and it names that entry's identifier |
| Publication.PublishedExactly | build/discoverable.js:321-336 | an object is published exactly when it is not `null`, it has an identifier, a name and a port, the identifier resolves, and the registered identifier parses. It is then advertised with the caller's name, port and host, and with type, protocol and subtype that reassemble into the registered identifier |
| Publication.PublishAll | build/discoverable.js:319-339 | the `forEach` stops only at a `null` element or at an identifier the pattern rejects |
| Publication.PublishAllAppend | build/discoverable.js:319-341 | publishing `a + b` is publishing `a`, then `b` when `a` raised nothing |
| Publication.PublishAllFromEntries | build/discoverable.js:319-341 | there are never more publications than objects, and every publication is the decision for one of the objects |
| Process.FindCalls | build/discoverable.js:253-256 | one `find` per browse, in order, on the given instance, with the given timeout |
| Process.PublishCalls | build/discoverable.js:337 | one `publish` per published object, in order, on the session |
| Process.PublishLogShape | build/discoverable.js:324-326 | a session is created at most once, first, and only when something is published and no session is open. Every publication goes to that one session |
| Process.PublishSeqClosed | build/discoverable.js:319-339 | publishing one object after another opens a session only if none is open and something is published, and makes exactly the calls `PublishLog` lists |
| Process.DecideAt | build/discoverable.js:320-336 | the `forEach` body, written as statements up to the `publish` call, makes the decision specified for that object |
| Process.PublishLoop | build/discoverable.js:319-341 | the loop publishes exactly the specified objects, in order, and ends with the specified error |
| Process.Discoverable.constructor | build/discoverable.js:31-35 | the registry path starts at the default, with no cache, no session and no call made |
| Process.Discoverable.SetRegistryPath | build/discoverable.js:179-188 | a non-string path is rejected and changes nothing. Otherwise the path, or the default for `null`, becomes the registry path and the cache is cleared |
| Process.Discoverable.RegistryServices | build/discoverable.js:107 | the first call loads the registry at the current path, and later calls return the cached outcome, a failure included |
| Process.Discoverable.EnumerateServices | build/discoverable.js:208-210 | `enumerateServices` gives the memoised catalog |
| Process.Discoverable.FindServices | build/discoverable.js:233-289 | a rejected argument makes no engine call. Otherwise one instance is created, a `find` is issued for each planned browse, and the instance is destroyed. The result is the load error, the plan's error, or every record found, tagged |
| Process.Discoverable.PublishServices | build/discoverable.js:311-343 | the same argument and interface checks, then the load. Each qualifying object is published on the session, which is created on first use, and a throw leaves what was already published published |
| Process.Discoverable.PublishEach | build/discoverable.js:318-341 | the `forEach` adds the specified publications to the state and to the engine log |
| Process.Discoverable.UnpublishServices | build/discoverable.js:359-368 | without a session nothing happens. Otherwise everything is unpublished and the session is destroyed and forgotten |
| Process.UnpublishTwice | build/discoverable.js:359-368 | unpublishing twice does what unpublishing once does |
| Process.LoadAfterSetPath | build/discoverable.js:179-188 | after `setRegistryPath(p)` the load walks `p`, whatever the cache held |
| Process.LoadTwice | build/discoverable.js:107 | two loads with no `setRegistryPath` between them agree even if the file system changed |
| Changelog.IncludeCommitWhen | versionist.conf.js:14-16 | a commit is included exactly when its `Change-Type` tag is present and not empty |
| Changelog.FooterValue | versionist.conf.js:15 | a footer tag is truthy exactly when it is present and not the empty string |
| Changelog.LeadingSpace | versionist.conf.js:22 | the count of removable characters at the start: all of them are removable, and the next character is not |
| Changelog.TrailingSpace | versionist.conf.js:22 | the same, at the end |
| Changelog.Trim | versionist.conf.js:22 | `trim` leaves the slice obtained by cutting only removable characters from both ends, and neither end of the result is removable |
| Changelog.TrimUnique | versionist.conf.js:22 | any slice with those two properties is the result of `trim` |
| Changelog.TrimIdempotent | versionist.conf.js:22 | trimming twice is trimming once |
| Changelog.GetIncrementLevelFromCommit | versionist.conf.js:20-24 | the level exists only when `Change-Type` is present, and it is trimmed and no longer than the tag |
| Changelog.IncludedIffLevel | versionist.conf.js:14-24 | a commit is included exactly when it has an increment level, which is the trimmed tag and a fixed point of `trim` |
| Changelog.BlankChangeType | versionist.conf.js:14-24 | a non-empty `Change-Type` made only of characters `trim` removes includes the commit, with the empty level |
| Changelog.IsIssueRef | versionist.conf.js:34 | a string the pattern `^#[0-9]+$` accepts has at least two characters, and none of them is one that `trim` removes |
| Changelog.IssueLink | versionist.conf.js:32-36 | a link exists exactly when the trimmed `Connects-To` tag is `#` and digits. The link is the tracker URL followed by the tag's number, so the tag can be read back from it |
| Changelog.IssueLinkRoundTrip | versionist.conf.js:29-36 | a `Connects-To` that trims to `#<digits>` gives the tracker URL followed by those digits |
| Changelog.Updated | versionist.conf.js:31-38 | a commit's `issue` becomes the link when there is one, and stays as it was otherwise |
| Changelog.UpdatedIdempotent | versionist.conf.js:31-38 | handling a commit twice changes nothing more than handling it once |
| Changelog.UpdateIssue | versionist.conf.js:32-37 | the `forEach` body sets the commit's `issue` as specified and changes nothing else |
| Changelog.TransformTemplateData | versionist.conf.js:28-41 | every commit's `issue` is updated as specified and the list of commits is unchanged. The same object is returned |

## Left out

- Concurrency: `Promise.map` in the walk and in the catalog build pushes in completion order. The model uses listing order, depth first, which is one of the possible orders.
- The file system: it is an input tree (`Node`, looked up by path). A failed `readdir` or `stat` is one `ReadFailed` error, without the operating system's message. A `readFile` error other than ENOENT is the `Unreadable` tags file, which fails the load with `TagsIncorrect` naming the service, as lines 91-93 do. A tags file's JSON is reduced to its outcome, and its array elements are taken to be strings.
- The mDNS engine: it is represented by the calls made to it. The records a browse receives before its timer fires are an input (`answers`), and the timer itself is the timeout recorded in each `find` call.
- Process.Discoverable.FindServices: the callback at lines 257-260 writes `service` into the engine's own record object. The model builds a new tagged value instead, so that aliasing is not captured.
- Process.Discoverable.UnpublishServices: the session is forgotten inside the engine's `unpublishAll` callback. The model does this in one step, so calls that interleave with the callback are not modelled.
- Callbacks (`asCallback`) and promise plumbing: each operation returns its outcome directly.
- JavaScript values: timeouts and ports are modelled as integers. `_.isNumber` also accepts `NaN` and infinities, which the model does not represent. The strings passed to `findServices` are taken to be strings. An element of the `publishServices` array is a service object or `null`/`undefined`. Any other value, such as a number, reads as an object with no fields, which the model represents as a `PublishEntry` with every field missing. `os.networkInterfaces()` is a list of address lists without interface names.
- The `publishedServices` flag (line 338) is written and never read, so it is not modelled.
- versionist.conf.js:34 assigns the match to an undeclared global `issue`. That global is not modelled; only the commit's `issue` property is.
- `Connects-To` and `Change-Type` footer values are modelled as strings.
- The versionist settings (versionist.conf.js:5-9) and the Handlebars `template` (lines 43-53) are read by external tooling and contain no logic.
- test.js and lib/declarations.d.ts are not part of this model.
- Resolver.MatchIdentifier: its own contract states only that a match starts with `_`. What the pattern accepts and which groups it yields are stated separately, by Identifiers.MatchReassembles and Identifiers.MatchComplete, so that the function's unfolding stays small in the proofs that use it.
- Discovery.Flatten: its contract states only that no element is lost. The exact flattened content of the browse results is stated by Discovery.AggregateIsTagged.
- Discovery.NonNull: its contract states only that the list does not grow. Which entries survive is stated by Discovery.NonNullMembers, a separate lemma that keeps quantifiers out of the proofs over `NonNull`.
