# Verified model of the DNS filter's data paths

Dafny models and proofs for the parts of the DNS filter whose correctness is hardest to see from the
code: the constant database and its reader, the replication of the policy zone, the ASN interval
index, and the stateful members of the panel. Each source file keeps its form: objects that update
their fields are classes, loops are loops with invariants, byte formats are bytes. Each method is
proved against a specification function or relation, and the lemmas are about that.

`dafny verify dfyconfig.toml` checks everything.

## Structure

- Shared: `Basics`, `Bytes` (32-bit words), `Text` (splitting, trimming), `Sorting`.
- Constant database: `WireName`, `CdbFormat` (the image of a list of entries), `CdbDump` (its bytes
  read back), `CdbWriter`, `CdbReader`, `CdbRoundTrip`, `NameText` (names in character codes).
- Policy zone: `RpzSerial`, `RpzNames`, `RpzRecords`, `RpzPolicy` (which records and lines count),
  `RpzTransfer` (parser and net delta), `RpzStream` (streamed full transfers), `RpzFile` (domain file),
  `RpzServe` (serving), `RpzApp` (publication and state), `RpzRuns` (whole runs and their clients),
  `RpzCache` (the increments kept), `RpzHealing` (broken publications, runs along one upstream history),
  `RpzSerialEdges`, `RpzLocks` (interleavings).
- ASN index: `AsnSweep`, `AsnTable`, `AsnFile`, `AsnIndex`, `AsnRows` (answers by the input's lines),
  `AsnReload` (incomplete files).
- Panel: `ProfileParse`, `ProfileStore`, `ProfileCalls`, `ProfileRuns`; `RateLimiter`; `LuaText`,
  `LuaTokens`, `LuaValues`, `LuaProfile`, `LuaDnsdist`, `LuaSettings`; `Dnstap`; `Whitelist`.

Libraries the sources call are parameters with stated assumptions: JSON and SHA-256 (`Codec`,
`Faithful`: a marshalled profile decodes to itself), the IP parsers (`Net`, and `IpForms`: a printed
address parses to itself). The clock, failing writes, transport faults and the upstream's answers are
inputs, quantified over in every theorem.

## What the code does not keep

Each item names its theorems: what holds for all inputs and exactly when, and an input that shows the
failure.

- A key whose hash is 0 is written but never found, and its record ends the probes of other keys of
  bucket 0: `CdbRoundTrip.RoundTripExactly` for all keys, `CdbRoundTrip.KeyFoundExactly` for each,
  `CdbRoundTrip.OtherBucketsExact`; "rettkoq" is lost, and hides "kl": `CdbRoundTrip.HiddenName`.
- Generator and panel encode a name alike only where they trim it alike: `WireName.KeysAgreeExactly`,
  `WireName.KeysDisagree`, `WireName.SpaceDisagrees`.
- Serial comparison is not transitive: `RpzSerial.TransitiveExactly`, `RpzSerial.NotTransitive`.
- An announced upstream serial 0 is not compared with the transfer, so a publication can carry a serial
  its cached delta does not lead to: `RpzSerialEdges.LabelledExactly`, `RpzSerialEdges.ZeroSerialMislabels`.
- The record limit does not count the first envelope of an increment, so the outcome beyond the limit
  depends on the split: `RpzStream.SplitMatters`, `RpzStream.SplitMattersOnce`.
- Normalizing a text that ends in two dots, or in white space and a dot, gives a text that is normalized
  to another one: `RpzPolicy.NormalizedTwice`, `RpzPolicy.TwoDots`.
- A domain with a leading `#` is accepted from a transfer and then read as a comment:
  `RpzFile.FileReadsExactly`, `RpzApp.RewriteExactly`, `RpzFile.HashLineLost`.
- A failure between the raw rename and the state update lets transfers pair an old serial with new
  domains: `RpzLocks.PinsPublishedExactly`, `RpzLocks.AbortMixesVersions`. A retry heals it if and only
  if it mentions what the break changed: `RpzHealing.RetryHealsExactly`; one that does not leaves a cached
  delta that misleads clients: `RpzRuns.DownstreamConverges`. Along one upstream history every retry
  heals, `RpzHealing.UpstreamRun`; a condensed one need not, `RpzHealing.CondensedDoesNotHeal`.
- The single SOA for an up-to-date client is read after the comparison: `RpzLocks.SoaReadAgain`.
- A secondary without raw file, also one that had data and lost it, never fetches from an upstream
  whose serial is 2^31 or more: `RpzSerialEdges.ProceedsExactly`, `RpzSerialEdges.FreshProceedsExactly`.
- The root cannot be the policy zone, nor can names that grow too long be served under another:
  `RpzRecords.ServedNameExactly`.
- Reloading a file that was not written to its end into a working ASN index replaces rows and names
  before the check, and one cut among its names is loaded: `AsnReload.ReloadExactly`,
  `AsnReload.NamesCutExactly`.
- Naming a node twice in one assignment, or a restart after a failed history save, breaks the chain of
  changes: `ProfileRuns.AssignManyChained`, `ProfileRuns.RestartChained`, `ProfileRuns.NamedTwiceBreaks`,
  `ProfileRuns.UnsavedHistoryBreaks`.
- At the limit of 4096 buckets a bucket of the empty address is never evicted. One call can exceed the
  limit if and only if it meets that guard, `RateLimiter.StepExactly`, and a sequence of calls if and
  only if one of its runs does, `RateLimiter.LimitExactly`; how far, `RateLimiter.EmptyAddressUnbounded`.
  The panel takes the address from the connection (`requestIP`, panel/login_limit.go:99-105), which
  gives an empty one only for a remote address that is blank or has an empty host.

Where comments and code disagree the code is modelled: tools/gen-cdb.py:51 speaks of four bytes a table
slot where eight are written, and panel/smartdist_profile.go:196-197 of histories kept in memory only
where the file has them. The comment at tools/rpz-master/config.go:36 says a limit of 0 means the
default; validation refuses it (tools/rpz-master/config.go:110-112), and the transfer code, which is
modelled, takes ten million.

## Model

| member | source | states |
|---|---|---|
| WireName.DecodeWire | tools/gen-cdb.py:118-132 | reading length-prefixed labels of a wire key gives back exactly the labels it was made of |
| WireName.WireInjective | tools/gen-cdb.py:118-132 | two label lists with one wire key are the same list |
| WireName.WireLength | tools/gen-cdb.py:119-131 | a wire key is two octets longer than the dotted name, so 255 octets are 253 characters (RFC 1035 section 2.3.4) |
| WireName.GeneratorWireName | tools/gen-cdb.py:108-132 | the loop computes GeneratorKey, which has no value exactly where the loop raises |
| WireName.PanelWireDomainKey | panel/status.go:261-277 | the loop computes PanelKey: trimmed, lower-cased, at most 253 characters, labels of 1 to 63 |
| WireName.KeysAgree | panel/status.go:261-277 | generator and panel agree on every name without surrounding white space and leading dot |
| WireName.PanelIsGeneratorOnTrimmed | panel/status.go:261-277 | on any input the panel's key is the generator's key of the trimmed name |
| WireName.KeysAgreeExactly | panel/status.go:261-277 | generator and panel agree on a name if and only if they trim it to the same text, or both refuse it |
| WireName.KeysDisagree | panel/status.go:261-277 | a leading dot is accepted by the panel and refused by the generator: an example |
| WireName.SpaceDisagrees | panel/status.go:261-277 | a leading space is encoded by the generator and trimmed by the panel: an example |
| NameText.TrimSpaceIs | panel/status.go:261-263 | trimming takes away exactly the white space at both ends: blanks and the codes 9 to 13 |
| NameText.TrimDotsIs | panel/status.go:263 | trimming dots takes away exactly the dots at both ends |
| NameText.ClosingDots | tools/gen-cdb.py:117 | the generator takes away exactly the dots at the end |
| NameText.LowerSame | panel/status.go:261-263 | lower-casing makes exactly those texts equal that differ in the case of letters only, 32 codes apart, and leaves no capital |
| NameText.CaseIgnored | panel/status.go:261-277 | names that differ in the case of letters only have the same keys, and every file answers them alike |
| NameText.SharedKeyExactly | panel/status.go:261-277 | a listed and a queried name share a key exactly when trimming leaves the same of them but for the case of letters |
| NameText.KeysSameExactly | tools/gen-cdb.py:108-132 | the same for two listed names, and for two queried ones |
| NameText.AcceptedExactly | panel/status.go:261-277 | a name has a key exactly when trimming leaves labels of one to 63 characters with single dots in between, 253 in all |
| NameText.KeysAreLow | tools/gen-cdb.py:118-132 | no byte of a key is the code of a capital letter |
| CdbFormat.StepsAgree | tools/gen-cdb.py:27-31 | one masked hash step equals one wrapping 32-bit step |
| CdbReader.WrappingHash | panel/status.go:311-315 | the reader's wrapping loop computes the generator's hash |
| CdbWriter.CdbHash | tools/gen-cdb.py:27-31 | the masked loop computes HashOf |
| CdbWriter.CollectRecords | tools/gen-cdb.py:36-41 | hash and file position of every record, positions being the sums of the sizes before |
| CdbWriter.GroupBySlot | tools/gen-cdb.py:43-49 | each bucket holds exactly the records of its hash byte, in input order |
| CdbWriter.PlaceRecord | tools/gen-cdb.py:76-82 | a record goes to the first free slot met from its start, and every earlier record keeps its probe path |
| CdbWriter.PlaceBucket | tools/gen-cdb.py:72-82 | a bucket of n records fills exactly n slots: a free slot always exists, all records are placed, each reachable over full slots |
| CdbWriter.WriteRecords | tools/gen-cdb.py:62-68 | all records stand at their positions; fails exactly when a length needs more than 32 bits |
| CdbWriter.WriteTables | tools/gen-cdb.py:72-87 | all tables stand at their positions and the records stay; fails exactly when a position needs more than 32 bits |
| CdbWriter.WriteHeader | tools/gen-cdb.py:89-94 | the header leads to every table; fails exactly when a table starts at 2^32 or later |
| CdbWriter.WriteCdb | tools/gen-cdb.py:34-97 | the writer succeeds if and only if all positions fit 32 bits; then the file is the image of the entries, and reading its records by their own lengths gives back exactly the entries |
| CdbDump.DumpRoundTrip | tools/gen-cdb.py:62-94 | from byte 2048 to the first table, which the header's first word gives, the records read by their two lengths, lowest byte first, are exactly the entries, keys and values, in order |
| CdbReader.ProbeTable | panel/status.go:329-355 | the probe loop computes the bounded linear probe with wrap-around |
| CdbReader.CdbContainsDomain | panel/status.go:297-356 | the reader, bounds checks and 32-bit sums included, computes Lookup, where a slice out of order is a panic |
| CdbReader.HeaderNeeded | panel/status.go:302-322 | a file below 2048 bytes has no keys, in any other the table that the hash selects is searched if it lies in the file |
| CdbReader.RecordIsExact | panel/status.go:343-353 | where no sum wraps, a record matches exactly when it lies in the file and holds the key |
| CdbReader.LookupTotal | panel/status.go:297-366 | below 2^32 bytes every file and name gets an answer without a panic, and a hit is backed by a record holding the wire key |
| CdbRoundTrip.LookupFinds | panel/status.go:308-355 | over an image without zero hashes in the key's own bucket a key is found if and only if a record has it, whatever collides |
| CdbRoundTrip.RoundTripExactly | panel/status.go:335-337 | over a written file all keys are answered as list membership has it if and only if no entry's key hashes to 0 |
| CdbRoundTrip.KeyFoundExactly | panel/status.go:329-355 | over any written file a key is found if and only if its probe path meets its first record before a record that hashes to 0 |
| CdbRoundTrip.OtherBucketsExact | panel/status.go:329-355 | keys outside bucket 0 are always answered as list membership has it |
| CdbRoundTrip.RoundTrip | tools/gen-cdb.py:34-97 | without zero hashes each key is found exactly when it is in the list, duplicates and full collisions included |
| CdbRoundTrip.ZeroHashLost | panel/status.go:335-337 | a key hashing to 0 is never found in any file |
| CdbRoundTrip.LostName | panel/status.go:335-337 | a concrete name that is lost: rettkoq |
| CdbRoundTrip.ZeroHashHides | panel/status.go:335-337 | a record that hashes to 0 hides a key listed behind it whose probe starts at its slot |
| CdbRoundTrip.HiddenName | panel/status.go:335-337 | a concrete name that is hidden so: kl listed behind rettkoq |
| CdbRoundTrip.BuildEntries | tools/gen-cdb.py:170-180 | the entries of a list are the wire keys of its valid names, invalid ones skipped |
| CdbRoundTrip.EntriesKeys | tools/gen-cdb.py:170-180 | a key is among the entries exactly when some listed name has it |
| CdbRoundTrip.NameRoundTrip | panel/status.go:297-356 | querying a name over the file of a list hits exactly when the list has a name with its wire key, and never panics |
| NameText.NameFoundExactly | panel/status.go:297-356 | end to end in characters: over the file of a list without zero hashes a query hits exactly when an accepted name of the list is the same but for the case of letters and what is trimmed |
| CdbRoundTrip.SameKeySameLabels | panel/status.go:261-277 | two accepted names share a key exactly when they are equal after lower-casing and trimming |
| CdbRoundTrip.FirstMatchIsEarliest | tools/gen-cdb.py:72-82 | of equal keys the first one a probe meets is the one inserted first |
| RpzSerial.Comparable | tools/rpz-master/slave_client.go:418-421 | of two different serials exactly one is newer, unless they are 2^31 apart (RFC 1982 section 3.2) |
| RpzSerial.TransitiveExactly | tools/rpz-master/slave_client.go:418-421 | two steps forward make one step forward if and only if together they go less than 2^31 |
| RpzSerial.NotTransitive | tools/rpz-master/slave_client.go:418-421 | serial comparison is not transitive: an example |
| RpzSerial.StepNearer | tools/rpz-master/slave_client.go:357-402 | a forward step that does not pass the target brings it strictly nearer modulo 2^32 |
| RpzNames.NormalizeDomain | tools/rpz-master/slave_client.go:453-465 | a policy domain is a fixpoint of normalization |
| RpzPolicy.NormalizeExactly | tools/rpz-master/slave_client.go:453-465 | which texts are taken for domains, and for which: trimmed, one dot taken off, in lower case, labels of one to 63 characters, 253 in all, or a single dot |
| RpzPolicy.NormalizeCase | tools/rpz-master/slave_client.go:453-465 | the case of letters makes no difference |
| RpzPolicy.NormalizedTwice | tools/rpz-master/slave_client.go:453-465 | a normalized text is normalized to itself if and only if it ends in no dot and no white space |
| RpzPolicy.TwoDots | tools/rpz-master/slave_client.go:453-465 | a.. becomes a. and only then a: an example |
| RpzNames.PrefixIsDomain | tools/rpz-master/slave_client.go:438-443 | what stands before the zone in an owner name is a policy domain |
| RpzRecords.PolicyOwners | tools/rpz-master/slave_client.go:423-451 | the distinct policy domains of a section, sorted; an error exactly when some owner is rejected |
| RpzRecords.PolicyOwnerIsDomain | tools/rpz-master/slave_client.go:423-451 | an accepted owner is its domain with the zone behind it |
| RpzPolicy.OwnersExactly | tools/rpz-master/slave_client.go:423-451 | under a zone other than the root a domain is on the list exactly when a CNAME, A or AAAA record has it in front of the zone, in any case of letters; no other type counts |
| RpzPolicy.OwnersOkExactly | tools/rpz-master/slave_client.go:423-451 | a section is accepted exactly when every owner, of whatever type, is the zone or under it |
| RpzPolicy.OwnersAreLow | tools/rpz-master/slave_client.go:423-451 | no listed domain is empty or has a capital letter |
| RpzPolicy.ZoneSoaExactly | tools/rpz-master/slave_client.go:306-310 | an SOA is the zone's exactly when its owner is the zone but for the case of letters |
| RpzRecords.RecordOfRoundTrip | tools/rpz-master/slave_client.go:438-443 | suffix stripping undoes the served mapping from domain to domain.zone |
| RpzRecords.ServedNameExactly | tools/rpz-master/dns_server.go:345-375 | what the server makes of a domain is a name a message can hold if and only if the zone is not the root and the whole fits 255 octets |
| RpzRecords.ApplyIdempotent | tools/rpz-master/slave_client.go:503-555 | as sets, applying one delta twice is applying it once |
| RpzRecords.MakesEqual | tools/rpz-master/slave_client.go:503-555 | a delta makes two sets equal if and only if it mentions every domain they differ in |
| RpzRecords.UndoesExactly | tools/rpz-master/slave_client.go:503-555 | a second delta undoes a first one on every set if and only if it mentions every domain the first does |
| RpzTransfer.FindSoa | tools/rpz-master/slave_client.go:347-353 | the index of the next SOA, never beyond the records |
| RpzTransfer.MarkAll | tools/rpz-master/slave_client.go:365-386 | marking a section overrides earlier marks of its domains only |
| RpzTransfer.FoldOne | tools/rpz-master/slave_client.go:342-391 | one difference sequence: delete part, add part, next index, or the first error |
| RpzTransfer.FoldChain | tools/rpz-master/slave_client.go:338-403 | the index loop computes the chain parse and its folded changes, terminates and stays in bounds |
| RpzTransfer.ParseTransferRecords | tools/rpz-master/slave_client.go:302-415 | the whole parser computes ParseTransfer: full, incremental, nothing new, or an error |
| RpzPolicy.FullExactly | tools/rpz-master/slave_client.go:302-336 | a full transfer is accepted exactly when it lies between two SOAs of the zone with one serial and every owner is in the zone; it leads to that serial and adds exactly the listed domains, sorted |
| RpzPolicy.ShortExactly | tools/rpz-master/slave_client.go:302-318 | on no record or one, parser and stream accept only the zone's SOA with the serial one has, as nothing new |
| RpzPolicy.IncrementExactly | tools/rpz-master/slave_client.go:338-414 | an accepted increment has every owner in the zone, and for every starting set the last record that lists a domain decides whether it is there |
| RpzTransfer.ParseIsChain | tools/rpz-master/slave_client.go:338-403 | what the loop accepts is a chain of difference sequences in the grammar of RFC 1995 section 4 |
| RpzTransfer.ChainParses | tools/rpz-master/slave_client.go:338-403 | every chain is accepted, with exactly its sequences |
| RpzTransfer.NetIsReplay | tools/rpz-master/slave_client.go:338-414 | for any set, removing what ended absent and adding what ended present equals every sequence in order |
| RpzTransfer.IncrementalMeaning | tools/rpz-master/slave_client.go:338-414 | an accepted increment is a chain; its delta is disjoint, sorted, duplicate-free and means the whole replay for every starting set |
| RpzTransfer.ChainsAccepted | tools/rpz-master/slave_client.go:302-414 | conversely every chain from the current serial to a newer one is accepted with its net delta |
| RpzTransfer.ChainNearer | tools/rpz-master/slave_client.go:338-403 | along an accepted chain the distance to the target strictly falls and starts below 2^31 |
| RpzTransfer.ChainSerials | tools/rpz-master/slave_client.go:338-403 | so all intermediate serials differ and there are fewer than 2^31 sequences |
| RpzStream.StreamBatch | tools/rpz-master/slave_client.go:224-263 | one batch: accepted exactly within the limit and when the stream so far is |
| RpzStream.StreamAxfrFromEnvelopes | tools/rpz-master/slave_client.go:205-300 | the outcome is that of streaming the concatenated records, plus the limit and transport faults |
| RpzPolicy.StreamExactly | tools/rpz-master/slave_client.go:224-263 | what is streamed in stages exactly the listed domains, and every owner is in the zone |
| RpzStream.ReadHead | tools/rpz-master/slave_client.go:119-130 | reads envelopes until two records are buffered |
| RpzStream.SyncIxfr | tools/rpz-master/slave_client.go:93-179 | head, choice of path, streaming or buffering, serial check |
| RpzStream.SplitIndependent | tools/rpz-master/slave_client.go:93-179 | within the limit, or for a full transfer, only the concatenated records matter |
| RpzStream.LimitExactly | tools/rpz-master/slave_client.go:113-161 | a full transfer may have one record more than the limit; an increment is refused beyond it unless it came whole with its first two records |
| RpzStream.TargetAnnounced | tools/rpz-master/slave_client.go:172-177 | an accepted response leads to the announced serial if and only if that is not 0, or the opening SOA's serial is 0 as well |
| RpzStream.SplitMatters | tools/rpz-master/slave_client.go:111-161 | all splits of a response have one outcome if and only if it is no increment, or within the limit, or refused anyway |
| RpzStream.SplitMattersOnce | tools/rpz-master/slave_client.go:146-157 | there is a response whose outcome depends on its split |
| RpzStream.StreamRefinesParser | tools/rpz-master/slave_client.go:205-300 | the stream accepts exactly the full responses the parser accepts in which only matching SOAs follow the closing one, with the same domains |
| RpzFile.ApplyDeltaToFile | tools/rpz-master/slave_client.go:467-571 | computes Rewritten, errors included |
| RpzFile.StreamLines | tools/rpz-master/slave_client.go:503-541 | the pass writes what is not deleted and strikes it off the additions |
| RpzFile.RewriteLines | tools/rpz-master/slave_client.go:503-555 | line by line: deleted domains have no line, others as many as before, new ones exactly one |
| RpzFile.RewriteMeaning | tools/rpz-master/slave_client.go:503-555 | as sets: delete, then add what is not deleted |
| RpzFile.RewriteTwice | tools/rpz-master/slave_client.go:503-555 | rewriting a file a second time by the same delta leaves the very same lines |
| RpzFile.PlainFile | tools/rpz-master/builder.go:105-113 | a file of plain domains reads back as itself |
| RpzFile.LineReadsExactly | tools/rpz-master/builder.go:106-113 | a domain's own line reads back as that domain if and only if it has no # in front |
| RpzFile.FileReadsExactly | tools/rpz-master/builder.go:105-129 | a file of domains reads back as exactly their set if and only if none has # in front |
| RpzFile.HashLineLost | tools/rpz-master/builder.go:106-109 | every domain with # in front is a policy domain of some transfer, and in the set of no file, whatever its lines |
| RpzFile.HashIsDomain | tools/rpz-master/slave_client.go:453-463 | there is such a domain |
| RpzFile.CompileDomains | tools/rpz-master/builder.go:76-161 | keys and count of the compiled database, an error on a line that is no domain |
| RpzPolicy.LineExactly | tools/rpz-master/builder.go:105-113 | a line is skipped exactly when it is blank or starts with #, and else read as what it is normalized to |
| RpzServe.HandleAxfr | tools/rpz-master/dns_server.go:185-276 | chunks concatenate to opening SOA, one record a domain, closing SOA (RFC 5936 section 2.2): envelopes of one record, of 200 each, of what is left, and of one |
| RpzPolicy.ZoneServed | tools/rpz-master/dns_server.go:217-264 | for any readable file, whoever wrote it, one CNAME record for each of its domains, in order, between two equal SOAs |
| RpzServe.FindDelta | tools/rpz-master/dns_server.go:288-298 | the latest cached delta between the two serials, found exactly when there is one |
| RpzServe.EmitDelta | tools/rpz-master/dns_server.go:333-381 | chunks concatenate to the increment of the delta (RFC 1995 section 4) |
| RpzServe.HandleIxfr | tools/rpz-master/dns_server.go:278-386 | single SOA, cached increment or full transfer, by serial and cache |
| RpzPolicy.SoaOnlyExactly | tools/rpz-master/dns_server.go:300-308 | a single SOA answers exactly the clients that have a serial which the server's is not newer than |
| RpzServe.IxfrRoundTrip | tools/rpz-master/dns_server.go:333-381 | parsing the served increment of a delta gives back exactly that delta, empty parts included |
| RpzServe.AxfrRoundTrip | tools/rpz-master/dns_server.go:185-266 | streaming in a served zone stages exactly the domains of the file it was served from, which are its lines when none has # in front |
| RpzApp.App.PublishDelta | tools/rpz-master/builder.go:201-284 | staging and the three renames in order, each with its failure |
| RpzApp.RenameOrder | tools/rpz-master/builder.go:264-281 | what a publication that breaks off has replaced: the raw file, then the database, then the manifest |
| RpzApp.App.Sync | tools/rpz-master/main.go:126-187 | one poll: files, memory and outcome, for every upstream answer and every failing step; RpzCache says what is in the cache after it |
| RpzCache.PublishedIsServed | tools/rpz-master/main.go:164-173 | after a published increment it is the last one cached, and a client at the serial it starts from is answered with it |
| RpzCache.CacheIsLastTwenty | tools/rpz-master/main.go:164-173 | after every run, with any failures and restarts, the cache is exactly the last twenty increments the run published, in order |
| RpzCache.ServedExactly | tools/rpz-master/dns_server.go:288-298 | so after every run a client is answered from the cache exactly when one of the last twenty increments leads from its serial to the current one |
| RpzApp.App.Restart | tools/rpz-master/config.go:223-236 | a new process has the state of the old one in every sound state; RpzRuns.RunSound: that is every state a run can reach |
| RpzApp.DefaultLimit | tools/rpz-master/slave_client.go:113-116 | without a positive limit of its own a secondary takes ten million records |
| RpzApp.ParsedServable | tools/rpz-master/slave_client.go:302-414 | every accepted increment is a delta that can be served again |
| RpzApp.RewriteDomains | tools/rpz-master/slave_client.go:503-555 | applying a servable delta to a file of domains succeeds, and the file then shows exactly the changed set but for domains with # in front |
| RpzApp.RewriteExactly | tools/rpz-master/slave_client.go:503-555 | it shows exactly the changed set if and only if no added domain has # in front |
| RpzApp.EffectsEqual | tools/rpz-master/slave_client.go:503-555 | an increment makes two files show the same if and only if it mentions every domain they differ in |
| RpzApp.PublishDescribes | tools/rpz-master/builder.go:201-284 | a publication leaves raw file, database, manifest and state describing one set |
| RpzApp.StepEffect | tools/rpz-master/main.go:126-187 | a poll that is delivered a delta, full or incremental, leaves its effect in the raw file unless nothing was renamed; only one without failure moves the state |
| RpzApp.SyncKeepsSound | tools/rpz-master/main.go:126-187 | whichever step fails and whatever broke before, a poll keeps serial, state file and cache exact (at most 20 deltas, each of which leads from one publication to the next if and only if it healed when it was published); one that publishes makes raw file, database, manifest and state describe one set |
| RpzRuns.RunSound | tools/rpz-master/main.go:126-187 | so does every run from nothing with any transfers, failing steps and restarts, and published serials always move forward |
| RpzRuns.RunConsistent | tools/rpz-master/main.go:126-187 | if nothing has broken behind the raw rename since the last publication, all files and the state describe it |
| RpzRuns.UnbrokenHeals | tools/rpz-master/main.go:126-187 | in a run in which nothing breaks there every publication heals |
| RpzRuns.DownstreamConverges | tools/rpz-master/dns_server.go:278-386 | after every run with distinct serials, a client holding any earlier, serial-older publication ends one exchange with exactly the current set and serial if and only if, answered from the cache, the current publication healed, and answered in full, the raw file is that of the current publication |
| RpzRuns.DownstreamConvergesWhole | tools/rpz-master/dns_server.go:278-386 | when nothing has broken since the last publication, only a cached delta that did not heal can mislead a client; when nothing broke at all, none does |
| RpzRuns.Exchange | tools/rpz-master/dns_server.go:278-386 | the same for one exchange with any server whose cache is exact |
| RpzHealing.ReplayHeals | tools/rpz-master/slave_client.go:338-414 | replaying a whole history over any intermediate snapshot ends at its final snapshot |
| RpzHealing.RetryHealsExactly | tools/rpz-master/main.go:139-183 | after a break behind the raw rename, of a full or incremental transfer, first publication included, a retry answered in full always ends with the transferred set; one answered by an increment heals if and only if it mentions every domain the break left different |
| RpzHealing.CrashHeals | tools/rpz-master/main.go:139-183 | if the break left a snapshot on the history the retry brings, the retry ends where that history ends |
| RpzHealing.ChainLeavesSnapshot | tools/rpz-master/main.go:139-183 | an increment over a chain breaks off at a snapshot of every history that begins with the chain |
| RpzHealing.ManyBreaksHeal | tools/rpz-master/main.go:139-183 | after any number of breaks at any points of a history, replaying the history ends at its final snapshot |
| RpzHealing.HistoryHeals | tools/rpz-master/main.go:139-183 | so its delta mentions all that such breaks left different |
| RpzHealing.UpstreamRun | tools/rpz-master/main.go:126-187 | along one upstream history, each transfer the whole zone or the sequences from the saved serial, every publication of every run heals and is a version of the upstream later than the one before, whatever breaks and restarts lie between; the raw file always shows a version not before the published one |
| RpzHealing.UpstreamConverges | tools/rpz-master/dns_server.go:278-386 | end to end: after such a run a client holding any earlier publication ends one exchange with exactly the current one, a version of the upstream, if and only if it is answered from the cache or no break has left other domains in the raw file |
| RpzHealing.CondensedDoesNotHeal | tools/rpz-master/main.go:139-183 | there is a condensed history (RFC 1995 section 6) that does not heal |
| RpzSerialEdges.LabelledExactly | tools/rpz-master/main.go:157-178 | a publication carries the serial its transfer leads to if and only if the announced serial is not 0 or the transfer's own is 0 |
| RpzSerialEdges.ZeroSerialMislabels | tools/rpz-master/slave_client.go:172-177 | there is an exchange after which the serial is not that of the cached delta |
| RpzSerialEdges.ProceedsExactly | tools/rpz-master/main.go:133-149 | with any files and state some poll can publish if and only if the announced serial is newer than the one transfers start from; otherwise every poll changes nothing |
| RpzSerialEdges.FreshProceedsExactly | tools/rpz-master/main.go:133-149 | without a raw file, never fetched or removed, and whatever serial is saved, some poll can publish if and only if the announced serial lies strictly between 0 and 2^31; otherwise every poll changes nothing |
| RpzLocks.StepKeepsInv | tools/rpz-master/dns_server.go:185-266 | every enabled step of publisher and transfers keeps the locking invariant |
| RpzLocks.RunKeepsInv | tools/rpz-master/dns_server.go:185-266 | so does every interleaving |
| RpzLocks.TransferIsOneVersion | tools/rpz-master/dns_server.go:185-266 | every finished transfer sent one version, both SOA records and all domains; with distinct serials that version was published if and only if the raw file was the last publication's when it was pinned |
| RpzLocks.NoAbortAllClean | tools/rpz-master/main.go:157-184 | when nothing fails between raw rename and state update, all transfers are of published versions |
| RpzLocks.PinsPublishedExactly | tools/rpz-master/dns_server.go:185-202 | in every reachable idle state with distinct serials, a transfer can be pinned now, and pins a published version if and only if no abort has left other lines than the last publication's |
| RpzLocks.AbortLeaves | tools/rpz-master/builder.go:272-281 | an abort behind the raw rename leaves exactly the renamed lines, from every reachable idle state |
| RpzLocks.AbortMixesVersions | tools/rpz-master/main.go:157-184 | an abort of any other lines lets a transfer pair the old serial with them |
| RpzLocks.FallbackNotOlder | tools/rpz-master/dns_server.go:288-315 | whatever happens between the cache lookup of an incremental request and its fallback, the full transfer is of a publication not older than the one looked up |
| RpzLocks.SoaReadAgain | tools/rpz-master/dns_server.go:300-308 | the single SOA is read after the comparison: an up-to-date client accepts it if and only if nothing was published in between |
| AsnSweep.RangeAligned | addons/build-asn-db.sh:49-59 | a block is a power of two long, starts at a multiple of it, fits 32 bits and holds its address |
| AsnSweep.SameBlock | addons/build-asn-db.sh:49-59 | two blocks of one prefix length that share an address are equal |
| AsnSweep.Place | addons/build-asn-db.sh:124-125 | insertion keeps the stable order and adds one event |
| AsnSweep.SortedEvents | addons/build-asn-db.sh:118-125 | both ends of every range, sorted by address and kind, equal keys in input order |
| AsnSweep.BestTag | addons/build-asn-db.sh:133-134 | the first of the open ranges with the longest prefix |
| AsnSweep.RemoveFirst | addons/build-asn-db.sh:140-144 | drops the first open range with equal values |
| AsnSweep.RemovedIsEnding | addons/build-asn-db.sh:140-144 | although ranges are compared by value, the one dropped is the one that ends |
| AsnSweep.CoveringIsOpen | addons/build-asn-db.sh:131-145 | between two event addresses the open ranges are exactly the covering ones |
| AsnSweep.FirstMaximumIsBest | addons/build-asn-db.sh:132-135 | the first open range with the longest prefix is the longest match, earliest in the input on ties |
| AsnSweep.Emit | addons/build-asn-db.sh:132-135 | extends the intervals up to the next event address, keeping every address below described |
| AsnSweep.Sweep | addons/build-asn-db.sh:118-145 | the intervals are sorted, disjoint, non-empty, cover exactly the union and carry the longest match of every address |
| AsnTable.CoversIsMatches | addons/build-asn-db.sh:49-59 | a block's range is exactly the addresses that share its prefix |
| AsnTable.StoredReadsBack | addons/top-stats.lua:209-214 | a stored name reads back, up to its first zero byte |
| AsnTable.AddSource | addons/build-asn-db.sh:107-113 | a name is appended once; all offsets stay valid |
| AsnTable.Collect | addons/build-asn-db.sh:61-114 | one entry for every private and every usable block, in order, each with its range and its name; AsnRows.BlocksExactly says which blocks these are |
| AsnRows.BlocksExactly | addons/build-asn-db.sh:66-114 | the four private blocks, then the block of each line whose parts parse, in order, with its number and its AS name, or the text of its AS field when it has none; nothing else |
| AsnRows.BlockSizes | addons/build-asn-db.sh:49-59 | a block has one address at prefix 32 and twice as many for each bit less |
| AsnFile.WriteTable | addons/build-asn-db.sh:149-157 | the table's bytes; fails exactly when a number does not fit its width, and says what is left |
| AsnFile.RowAt | addons/top-stats.lua:190-207 | row k stands at byte 17 k |
| AsnFile.RowRoundTrip | addons/top-stats.lua:190-207 | reading a row's bytes gives back its five numbers |
| AsnFile.TableBytes | addons/build-asn-db.sh:149-157 | a table byte by byte: the letters TASB, number of rows and size of the names, highest byte first, 17 bytes a row, the names |
| AsnFile.Build | addons/build-asn-db.sh:45-157 | a successful build leaves a table for its blocks, a failed one a broken file |
| AsnFile.IntervalNamesLongest | addons/build-asn-db.sh:127-145 | what an interval says of an address is number and name of its longest match |
| AsnIndex.Index.Load | addons/top-stats.lua:217-254 | the module variables after loading, for every file |
| AsnIndex.Index.Lookup | addons/top-stats.lua:279-307 | the binary search loop, in any state: answer, silence, or the run-time error of a row or name that is not there |
| AsnIndex.WholeNeverFaults | addons/top-stats.lua:279-307 | a whole table never faults, whatever its rows hold |
| AsnIndex.WholeAnswer | addons/top-stats.lua:279-307 | over a whole table in ascending order the last row at or below the address answers |
| AsnIndex.LoadsTable | addons/top-stats.lua:217-254 | loading a written table brings back its rows, names and count |
| AsnIndex.BuiltWorks | addons/top-stats.lua:217-254 | loading a built file gives a working index, whatever was loaded before |
| AsnIndex.WorkingAnswers | addons/top-stats.lua:279-307 | a working index answers every address as longest-prefix match does |
| AsnIndex.LongestPrefixMatch | addons/top-stats.lua:279-307 | whatever was loaded before, a built file answers every address with number and name of the most specific block, earliest on ties, and nothing when none matches |
| AsnRows.LinesDecide | addons/top-stats.lua:279-307 | told by the lines: the line whose block holds the address and is longest, the earliest on ties, private blocks before all, gives number and name; else the private block does, with its literal number and name; else nothing |
| AsnRows.OneDecides | addons/top-stats.lua:279-307 | for every address one of these is the case |
| AsnRows.UnusableIgnored | addons/build-asn-db.sh:85-99 | a line with a part missing changes no answer |
| AsnReload.BrokenRefused | addons/top-stats.lua:217-254 | a file that ends within its header or its rows never makes the index loaded, nor changes its count |
| AsnReload.BrokenKinds | addons/build-asn-db.sh:149-157 | what a failed build leaves is such a file |
| AsnReload.PrefixUnfinished | addons/build-asn-db.sh:149-157 | so is what a killed write leaves: every beginning of a table that stops short of its names |
| AsnReload.CutLoads | addons/top-stats.lua:243-250 | but rows and names are replaced before that: the rows as far as they go, and no names |
| AsnReload.SearchCut | addons/top-stats.lua:286-298 | over cut rows the search reads only rows that are there if and only if all are, or it turns left at one on its rightmost path |
| AsnReload.CutAnswers | addons/top-stats.lua:279-307 | every lookup after reloading such a file: silence where the search survives, does not end at a row that is cut, and no whole row covers the address; a run-time error anywhere else |
| AsnReload.ReloadExactly | addons/top-stats.lua:217-307 | a working index that reloads an unfinished file goes on answering correctly if and only if the file ends before its header does |
| AsnReload.NamesCutLoads | addons/top-stats.lua:217-254 | a table cut among its names is loaded, with all rows and what is left of the names |
| AsnReload.NameCut | addons/top-stats.lua:209-214 | a name whose closing zero byte is cut off reads as Unknown, any other as before |
| AsnReload.NamesCutAnswers | addons/top-stats.lua:279-307 | every lookup then: silence outside the intervals, inside the number with what is left of the name, or a run-time error when no name is left |
| AsnReload.NamesCutExactly | addons/top-stats.lua:217-307 | such an index answers every address as longest-prefix match does if and only if something of the names is left and every interval's name reads as it did |
| ProfileParse.CanonicalParses | panel/smartdist_profile.go:151-189 | the canonical bytes of an accepted profile, also indented, parse to the same profile and bytes |
| ProfileParse.ParseSmartDistProfile | panel/smartdist_profile.go:151-189 | the checks in their order compute Parse |
| ProfileParse.ValidDnsdistSection | panel/smartdist_profile.go:86-138 | the loops over the lists and the range checks accept exactly the valid sections |
| ProfileCalls.ParseExactly | panel/smartdist_profile.go:151-189 | which documents are accepted: id, name, section and the needed fields of every rule; and what is kept of them |
| ProfileCalls.SlugExactly | panel/smartdist_profile.go:28 | an id is 1 to 40 letters a to z, digits and hyphens |
| ProfileCalls.RangesExactly | panel/smartdist_profile.go:125-138 | the bounds of each number of a section |
| ProfileCalls.ListsExactly | panel/smartdist_profile.go:90-124 | the block modes, the lists and their sizes |
| ProfileCalls.EmptyValid | panel/smartdist_profile.go:86-90 | a section without any setting is valid, so the bounds above are those of every section |
| ProfileStore.SmartDistProfileStore.constructor | panel/smartdist_profile.go:239-248 | a new process over any file has Loaded and is sound |
| ProfileStore.SmartDistProfileStore.Load | panel/smartdist_profile.go:250-282 | the three loading loops compute Loaded: profiles that still parse to their id, assignments to those, the last 50 changes |
| ProfileStore.SmartDistProfileStore.SaveLocked | panel/smartdist_profile.go:285-305 | a save that succeeds writes all three maps, one that fails nothing |
| ProfileStore.SmartDistProfileStore.Put | panel/smartdist_profile.go:308-326 | the new state and outcome are Step's; a failed call leaves everything as it was |
| ProfileStore.SmartDistProfileStore.Delete | panel/smartdist_profile.go:360-378 | the same; refused while some node is assigned |
| ProfileStore.SmartDistProfileStore.Assign | panel/smartdist_profile.go:381-404 | the same, with one history entry if the value changed |
| ProfileStore.SmartDistProfileStore.AssignMany | panel/smartdist_profile.go:408-440 | the same for all nodes at once: rollback by sentinel restores the old assignments exactly |
| ProfileCalls.PutSeen | panel/smartdist_profile.go:308-326 | what a caller sees of Put: its outcomes exactly, the stored document and hash, nothing else changed |
| ProfileCalls.DeleteSeen | panel/smartdist_profile.go:360-378 | of Delete: done exactly when the profile exists and no node runs it, and then it is gone and nothing else changed |
| ProfileCalls.AssignSeen | panel/smartdist_profile.go:381-404 | of Assign: the node runs the profile or none, no other node's assignment or history changes, a change of value is the last of at most 50 |
| ProfileCalls.AssignManySeen | panel/smartdist_profile.go:408-440 | of AssignMany: all named nodes run the profile, no other node's assignment or history changes |
| ProfileStore.SmartDistProfileStore.RecordLocked | panel/smartdist_profile.go:460-469 | adds a change of value, keeping the last 50 |
| ProfileStore.SmartDistProfileStore.ProfileForNode | panel/smartdist_profile.go:480-492 | an answer exactly for assigned nodes, with the hash of the canonical bytes |
| ProfileStore.RolledBack | panel/smartdist_profile.go:424-432 | undoing an assignment of many nodes gives back the assignments before it, duplicates included |
| ProfileStore.RecordedOneMore | panel/smartdist_profile.go:434-436 | recording node by node equals recording them all at once, also where old entries are dropped |
| ProfileStore.StepSound | panel/smartdist_profile.go:308-440 | every call keeps all assigned profiles existing and all entries canonical with the hash of their bytes |
| ProfileRuns.StepMirrored | panel/smartdist_profile.go:285-440 | every call keeps profiles and assignments of memory and file equal |
| ProfileRuns.RunSound | panel/smartdist_profile.go:239-440 | both hold after every run from an empty store, whatever saves fail and whenever it restarts |
| ProfileRuns.RestartReproduces | panel/smartdist_profile.go:250-282 | reloading reproduces profiles and assignments |
| ProfileRuns.AssignManyChained | panel/smartdist_profile.go:434-436 | an assignment of many nodes keeps the histories chained if and only if it fails or names no node twice that has another profile |
| ProfileRuns.AssignChained | panel/smartdist_profile.go:381-404 | a single assignment always keeps them chained |
| ProfileRuns.RestartChained | panel/smartdist_profile.go:444-448 | a restart keeps them chained if and only if the last history save succeeded |
| ProfileRuns.RunChained | panel/smartdist_profile.go:381-469 | in every run of such calls each history has at most 50 entries, each a change from the value the one before set, ending in the current assignment |
| ProfileRuns.NamedTwiceBreaks | panel/smartdist_profile.go:434-436 | a node named twice in one request breaks its history: an example |
| ProfileRuns.UnsavedHistoryBreaks | panel/smartdist_profile.go:444-448 | a restart after an assignment whose history save failed breaks the chain: an example |
| RateLimiter.CdbRateLimiter.Allow | panel/cdb_ratelimit.go:61-93 | the new buckets and the answer follow the specification; the wait is the time to one token |
| RateLimiter.CdbRateLimiter.EvictOldestLocked | panel/cdb_ratelimit.go:96-108 | at the limit an oldest bucket goes, unless its address is empty |
| RateLimiter.CdbRateLimiter.Forget | panel/cdb_ratelimit.go:112-116 | drops one bucket |
| RateLimiter.ForgetExactly | panel/cdb_ratelimit.go:112-116 | afterwards the address has no bucket, and every other bucket is as it was |
| RateLimiter.AfterHealthy | panel/cdb_ratelimit.go:75-92 | a call keeps tokens within 0 and 3 and a whole number of nanoseconds' worth |
| RateLimiter.WaitIsExact | panel/cdb_ratelimit.go:89-92 | a refused caller is granted after a further d if and only if d is at least the wait it was told |
| RateLimiter.RunHealthy | panel/cdb_ratelimit.go:61-93 | tokens stay within 0 and 3 in every run |
| RateLimiter.StepExactly | panel/cdb_ratelimit.go:66-108 | from at most 4096 buckets one call can lead to more if and only if it spills: a granted new address at the limit, where the oldest bucket can be that of the empty address |
| RateLimiter.UnspilledBounded | panel/cdb_ratelimit.go:66-108 | a run from empty in which no call spills stays within 4096 buckets |
| RateLimiter.LimitExactly | panel/cdb_ratelimit.go:66-108 | the limit holds after every run of a sequence of calls if and only if no run of it comes to a call that spills |
| RateLimiter.RunBounded | panel/cdb_ratelimit.go:66-72 | so in every run from empty with non-empty addresses at most 4096 buckets exist |
| RateLimiter.EmptyAddressUnbounded | panel/cdb_ratelimit.go:105-107 | calls that spill leave any number of buckets: an example for every number |
| RateLimiter.WindowBound | panel/cdb_ratelimit.go:61-93 | in any window without a drop of its bucket an address is granted at most 3 calls plus one for every 30 seconds, whatever the clock does |
| RateLimiter.ThreeAtOnce | panel/cdb_ratelimit.go:61-93 | of four first calls at one instant three are granted, and the fourth is granted exactly 30 seconds later |
| RateLimiter.FullAgain | panel/cdb_ratelimit.go:75-83 | after 90 seconds a bucket has its three tokens again, and never more |
| RateLimiter.EvictionExactly | panel/cdb_ratelimit.go:66-108 | a new address evicts nobody below 4096 buckets, and at the limit one seen no later than any other; all others keep their buckets |
| LuaText.LuaQuote | panel/smartdist_lua.go:73-99 | the rune loop computes Quoted |
| LuaText.QuoteRoundTrip | panel/smartdist_lua.go:73-99 | a Lua 5.1 reader gets from the literal of any string, followed by any text, exactly its bytes, and leaves that text untouched |
| LuaText.Utf8Exactly | panel/smartdist_lua.go:73-99 | the bytes of a character are its UTF-8 form (RFC 3629 section 3) |
| LuaText.EscapedRead | panel/smartdist_lua.go:88-92 | a three-digit escape reads back as its byte whatever follows, a digit included |
| LuaText.ShortEscapeSwallows | panel/smartdist_lua.go:88-92 | a shorter escape followed by a digit would not: an example |
| LuaProfile.LuaStrList | panel/smartdist_dnsdist_lua.go:64-70 | quotes and joins the strings into a table |
| LuaProfile.ListRoundTrip | panel/smartdist_dnsdist_lua.go:64-70 | before any readable text, the empty one included, the table parses back to exactly these strings and leaves that text |
| LuaProfile.ListAlone | panel/smartdist_dnsdist_lua.go:64-70 | the text of the list alone parses back to the list, with nothing left |
| LuaProfile.RuleText | panel/smartdist_lua.go:47-67 | the text of one rule's call |
| LuaProfile.GenerateSmartDistLua | panel/smartdist_lua.go:37-70 | fails exactly at the first rule of unknown type; otherwise the file is the printed program |
| LuaProfile.RulesRoundTrip | panel/smartdist_lua.go:37-70 | whatever strings a profile holds, its file parses to the switch and one call for each rule with exactly its arguments |
| LuaSettings.RulesFound | panel/smartdist_lua.go:37-70 | told by the names as text: SMARTDIST_ENABLED, then smartdns_ip_set, smartdns_cname or smartdns_ip_rules_alias with the arguments of each rule |
| LuaDnsdist.LuaInt | panel/smartdist_dnsdist_lua.go:72-76 | a line for a number that is present, none otherwise |
| LuaDnsdist.UpstreamText | panel/smartdist_dnsdist_lua.go:51-52 | one upstream as a table with three named fields |
| LuaDnsdist.GenerateDnsdistLua | panel/smartdist_dnsdist_lua.go:22-62 | fails exactly on an invalid section; otherwise the file is the printed program |
| LuaDnsdist.SectionRoundTrip | panel/smartdist_dnsdist_lua.go:22-62 | the file parses to exactly the settings that are present, in order |
| LuaSettings.SettingsFound | panel/smartdist_dnsdist_lua.go:22-62 | told by the names as text: under each of the eleven PROFILE_ names the section's value, or nothing where the section gives none |
| LuaValues.ValueTokens | panel/smartdist_dnsdist_lua.go:45-53 | the tokens of a printed value are those of its meaning, whatever delimiter follows |
| LuaValues.FieldsParse | panel/smartdist_dnsdist_lua.go:45-53 | parsing the tokens of fields gives back the fields |
| LuaValues.PrintParses | panel/smartdist_lua.go:37-70 | a heading and any printed statements parse to those statements |
| Dnstap.DnstapAggregator.constructor | panel/dnstap.go:51-60 | capacity 50000 unless a positive one is given |
| Dnstap.DnstapAggregator.Add | panel/dnstap.go:63-79 | counts the query under its own key, or under the day's overflow key when the table is full |
| Dnstap.AddedExactly | panel/dnstap.go:63-79 | an observation counts under its own key if that is there or the table is not full, else under the day's key named _other_ |
| Dnstap.DnstapAggregator.Take | panel/dnstap.go:96-111 | returns every entry once, all counts included, and empties the table |
| Dnstap.DnstapAggregator.TopBlocked | panel/dnstap.go:114-147 | distinct names with their totals in descending order, dominating every name left out, the table unchanged |
| Dnstap.Totals | panel/dnstap.go:118-121 | the total of every name over days and types |
| Dnstap.SortDescending | panel/dnstap.go:131-133 | the same totals in descending order |
| Dnstap.Conservation | panel/dnstap.go:63-111 | over every run, counts drained and counts held equal the number of calls |
| Dnstap.DayConservation | panel/dnstap.go:63-79 | overflow never moves a count to another day |
| Dnstap.Bounded | panel/dnstap.go:74-78 | ordinary keys never exceed the capacity |
| Dnstap.OneOverflow | panel/dnstap.go:74-78 | at most one overflow key a day |
| Dnstap.RunExact | panel/dnstap.go:63-79 | an ordinary key with an entry has its exact count; one that was seen and has none means a full table |
| Whitelist.NormalizeWhitelist | panel/main.go:44-77 | text, bad line numbers, count and duplicates are those of the specification |
| Whitelist.ValidWhitelistDomain | panel/main.go:79-89 | the loop over the labels accepts exactly the valid domains |
| Whitelist.DomainExactly | panel/main.go:79-89 | a domain is at most 253 characters of labels with single dots in between, each one to 63 digits, letters a to z and hyphens, no hyphen at an end |
| Whitelist.DomainIsLow | panel/main.go:79-89 | no domain of the list has a capital letter |
| Whitelist.LineCaseIgnored | panel/main.go:53-63 | lines that are no comments and differ in the case of letters only are the same entry, or both bad |
| Whitelist.DomainIsWord | panel/main.go:79-89 | a valid domain is lower case, without white space, without # in front and dot at its end |
| Whitelist.NormalizedCanonical | panel/main.go:44-77 | every kept line is a comment or an entry in canonical form, each entry once |
| Whitelist.NormalizedAccounts | panel/main.go:44-77 | entries, bad lines and duplicates account for every line |
| Whitelist.FirstOccurrenceOrder | panel/main.go:65-71 | entries stand in the order of their first occurrences |
| Whitelist.Fixpoint | panel/main.go:44-77 | normalizing the result gives the same text and count, no bad line, no duplicate |

## Left out

- Names with escapes or outside ASCII: names are escape-free ASCII label text; case folding and trimming outside ASCII are not modelled.
- The name-syntax check of the DNS library beyond empty and over-long labels.
- RR-level fidelity: the replica keeps owner names only, and everything is stated over sets of owners.
- Texts of error messages.
- RpzStream.SyncIxfr: promises an error but not which kind, because only success and its value are used.
- RpzRuns.DownstreamConverges: leaves out runs that announce serial 0 for a transfer of another serial, after which a cached delta is filed under the wrong serial (`RpzSerialEdges.LabelledExactly`), and the root zone, under which no answer can be sent (`RpzRecords.ServedNameExactly`).
- RpzRuns.RunSound: leaves out the same announcements of serial 0.
- RpzHealing.UpstreamRun: is for an upstream that never goes back to an older version and whose serials differ and are not 0.
- Client serials exactly 2^31 from the server's, for which serial comparison is undefined.
- TSIG, transfer slots, access lists, timeouts and the network: their failures are the fault inputs.
- The update mutex, which only serialises polls: a run is a sequence of polls.
- RpzServe.HandleIxfr: is stated for one state; publications between its steps are the subject of `RpzLocks`, where a cached increment is not replayed record by record.
- Bootstrap, feeds and BuildCDB, which compile a downloaded list without replication.
- File hashes and dates in manifest and state.
- The database writer of the Go tools, a library: its file is represented by its list of keys.
- CdbWriter.WriteCdb: leaves out the final re-hash of all records, because it compares a value with itself; a failed write's partial file is not described.
- Text parsing of CSV rows, CIDR text and dotted addresses in the ASN tools: rows and queried addresses enter as numbers.
- The CSV fallback of the ASN lookup, a linear scan.
- The label text around number and name in an ASN answer.
- Times in the profile store's history, and the list of summaries; profile names and node names are ASCII text.
- The store's mutex: every call is one step.
- RateLimiter.CdbRateLimiter.Allow: tokens are exact reals and durations unbounded nanoseconds; floating-point rounding and the saturation of very long durations are not modelled.
- Lua beyond what generated files use: long brackets, operators, numbers other than digits; a text with these has no parse.
- Strings with invalid UTF-8, which a JSON document cannot hold.
- Day formatting and message decoding before the aggregator; the order of equal totals is any.
- The HTTP handlers, authentication, cluster store, node agent and user interface.
