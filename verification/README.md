# A verified model of rr-dns

rr-dns is a DNS server that answers from its own zones, from a cache of upstream answers, or by asking upstream
servers.  This project models its core in Dafny and proves what that core is for.  `dafny verify dfyconfig.toml`
checks everything.

| module | models |
|---|---|
| `Strings`, `Numbers`, `Names`, `Labels` | Go's string helpers on ASCII bytes, decimals and big-endian fields, canonical names, length-prefixed labels |
| `Domain` | questions, records, types, classes, cache keys, expiry |
| `WireNames`, `WireQuery`, `WireResponse`, `WireLayout`, `WireRoundTrip` | DNS messages: names with compression pointers, queries, responses, what a response is without the decoder, and what survives encoding and decoding |
| `RdataFields`, `RdataText`, `Rdata` | the RDATA of SOA, MX, SRV, TXT and CAA records, and the choice of a codec by type |
| `Upstream` | asking several servers, one by one or all at once, the latter as a transition system |
| `Alias` | following CNAME chains |
| `DnsCache`, `ZoneCache`, `Resolver` | the two caches and the pipeline that uses them |
| `Pigeonhole`, `Wrappers` | counting arguments, `Option` and `Result` |

Code that works step by step is a method or a class whose postcondition names a specification function; the lemmas
are about that function, and compare it with something defined independently of it: a grammar of encoded names, a
plain map without eviction, a filter over a flat list, the unguarded path of aliases, the serial resolver, the
resolver without a cache.

What is worth knowing before reading the lemmas:

- `decodeName` follows compression pointers by calling itself, without counting them.  On some messages the recursion
  has no end: in Go it exhausts the stack, which ends the whole process and cannot be recovered from.  The model calls
  this `Endless` (and `Overflows` for the functions that use it); the methods ask only that it is not the case, and
  `EndlessExactly`, `QueryOverflowsExactly` and `ResponseOverflowsExactly` say when it is.
- The encoder keeps empty labels in names, and a pointer goes to the question's name wherever an owner equals the
  first one.  So after a trailing dot in the question's name the answers are looked for too early, and a first owner
  other than the question's canonical name does not come back; `AnswersFoundExactly` and `ResponseRoundTrip` give
  the exact conditions.
- The encoder writes fixed flags, so every response reads as NOERROR.
- `decodeSOAData` finds its offsets from the length of the decoded names, which is right exactly for names other
  than the root; `decodeCAAData` computes an offset in a byte, which is right exactly up to 253 bytes of tag.  On
  other data both may slice out of bounds, which the model calls `Panics`, and `Crashes` for the message decoder.
- A decoded TTL counts from the arrival of the message, so the time a message is under way is not counted.  In caches
  a record's life never grows; between them it does unless rounding to whole seconds takes off as much, and
  `LifeNeverGrows` says exactly when.
- All unsupported classes have the same name, so they share cache keys.
- `ZoneCache.Count` is documented to count records; it counts keys, and `CountIsRecordsExactly` says when that is the
  same.
- The comments on the alias resolver have it start from CNAME records found in the zones.  The zone cache finds
  records of the asked type only, so these chases always take the fast path; the chase is therefore modelled for
  arbitrary first records.

## Model

| member | source | states |
|---|---|---|
| `Names.CanonicalDNSName` | internal/dns/common/utils/canonicalName.go:9-17 | the loop that strips trailing dots computes the canonical form |
| `Names.CanonicalFixed` | internal/dns/common/utils/canonicalName.go:9-17 | the canonical names are exactly the lower-case ones without surrounding spaces or trailing dots |
| `Names.CanonicalIdempotent` | internal/dns/common/utils/canonicalName.go:9-17 | canonicalizing twice changes nothing, exactly for names without a space left of their trailing dots |
| `Names.CanonicalOf` | internal/dns/common/utils/canonicalName.go:9-17 | white space off both ends, then dots off the right: the rest in lower case is the canonical form, for every such decomposition |
| `Names.CanonicalParts` | internal/dns/common/utils/canonicalName.go:9-17 | every name has such a decomposition |
| `Labels.EncodeDomainName` | internal/dns/common/rrdata/000common.go:13-30 | the RDATA name encoder writes the non-empty labels of the canonical name, or fails if one is too long |
| `Labels.DecodeDomainName` | internal/dns/common/rrdata/000common.go:32-47 | the RDATA name decoder returns the labels up to a zero byte or the end of the data |
| `Labels.NameTextExactly` | internal/dns/common/rrdata/000common.go:32-47 | decoding succeeds exactly where labels with their lengths stand, up to a zero byte or the end, and joins them with dots |
| `Labels.NameBytesExactly` | internal/dns/common/rrdata/000common.go:13-30 | encoding succeeds exactly if no non-empty piece of the canonical name is above 63 bytes |
| `Labels.NameRoundTrip` | internal/dns/common/rrdata/000common.go:13-47 | an encoded name decodes to its dotted labels, which encode to the same bytes exactly when no space is at either end |
| `Labels.WireNameSize` | internal/dns/common/rrdata/006soa.go:62-69 | an encoded name is two bytes longer than its text, the root one byte |
| `Domain.TypeFromTypeName` | internal/dns/domain/rrtype.go:47-140 | a name parses to a type exactly if it is the one printed for it |
| `Domain.ClassFromClassName` | internal/dns/domain/rrclass.go:26-59 | likewise for the supported classes |
| `Domain.TypeNameInjective` | internal/dns/domain/rrtype.go:47-92 | different types, of all sixteen-bit ones, have different names |
| `Domain.UnknownTypeName` | internal/dns/domain/rrtype.go:47-92 | the name of an unsupported type is its number in `UNKNOWN()` |
| `Domain.ClassNameInjective` | internal/dns/domain/rrclass.go:26-41 | two classes share a name exactly if they are equal or both unsupported |
| `Domain.CacheKeyFields` | internal/dns/domain/utils.go:11-18 | apex, canonical name, type and class can be read back from a key; the apex is what the public suffix list gives, or else the name |
| `Domain.CacheKeyEqual` | internal/dns/domain/utils.go:11-18 | for all names and any public suffix list, keys are equal exactly for equal types, classes equal or both unsupported, and canonical names that are equal or overlap at a separator |
| `Domain.CacheKeyInjective` | internal/dns/domain/utils.go:11-18 | if neither name has a separator, or one has none and the public suffix list invents none, keys are equal exactly for equal canonical names, equal types, and classes equal or both unsupported |
| `Domain.CacheKeyCollision` | internal/dns/domain/utils.go:11-18 | a list that gives suffixes at dots, and two names with separators that overlap so under it; nothing is claimed of the real list |
| `Domain.WireTTLExactly` | internal/dns/domain/record.go:76-117 | the TTL sent is a zone's own for its own records, and for cached ones the whole seconds to the expiry, none after it |
| `Domain.OneHop` | internal/dns/domain/record.go:76-85 | the TTL sent is what came less the seconds held, those begun included, never negative |
| `Domain.TTLExactly` | internal/dns/domain/record.go:41-85 | the TTL at the end of any chain of caches is the original one less the seconds, rounded up, that each one held it |
| `Domain.LifeNeverGrows` | internal/dns/domain/record.go:41-56 | no chain of caches prolongs a life by time in caches; counting the time between them too, it does not exactly if nothing is left or rounding took off at least the time between |
| `Domain.TransitProlongs` | internal/dns/domain/record.go:41-56 | a chain whose expiry moves, and one where rounding absorbs the time between servers |
| `WireNames.DecodeName` | internal/dns/gateways/wire/udp_codec.go:64-96 | the loop with its recursion through pointers computes the specified name, whenever it returns |
| `WireNames.DecodesExactlySpelled` | internal/dns/gateways/wire/udp_codec.go:64-96 | it succeeds exactly where the bytes spell a name, which is unique, and gives that name's text and the offset after its first pointer or zero byte |
| `WireNames.EndlessExactly` | internal/dns/gateways/wire/udp_codec.go:75-87 | its recursion has no end, and exhausts the stack, exactly if the pointers lead into one label run twice; otherwise the result does not depend on any hop limit of 16384 or more |
| `WireNames.PointsBackReturns` | internal/dns/gateways/wire/udp_codec.go:75-87 | it returns if each pointer targets an offset below the start of its label run |
| `WireNames.NameReadsBack` | internal/dns/gateways/wire/udp_codec.go:64-115 | a name written without compression is read back, with the offset after it |
| `WireQuery.EncodeQuery` | internal/dns/gateways/wire/udp_codec.go:32-60 | the encoder writes header, non-empty labels, type and class, or fails on a long label |
| `WireQuery.QueryLabelsMean` | internal/dns/gateways/wire/udp_codec.go:43-54 | the labels written are the pieces of the name between dots that are not empty |
| `WireQuery.QueryDecodesExactly` | internal/dns/gateways/wire/udp_codec.go:118-137 | decoding gives a question exactly if the message spells its name after the header, with type and class behind it, and counts one question |
| `WireQuery.QueryFailsExactly` | internal/dns/gateways/wire/udp_codec.go:118-137 | each of its errors and exactly when it comes |
| `WireQuery.QueryOverflowsExactly` | internal/dns/gateways/wire/udp_codec.go:118-137 | decoding a query exhausts the stack exactly if it has a header, one question, and pointers from offset 12 that lead into one label run twice |
| `WireQuery.BelowPointerIsNotEnough` | internal/dns/gateways/wire/udp_codec.go:75-87 | a pointer target below the pointer alone does not suffice: a query of sixteen bytes that exhausts the stack |
| `WireQuery.QueryRoundTrip` | internal/dns/gateways/wire/udp_codec.go:32-137 | for every question, encoding fails exactly on a label above 63 bytes, and else decodes to the same ID, type and class and the name without empty labels |
| `WireQuery.SecondRoundTrip` | internal/dns/gateways/wire/udp_codec.go:32-137 | the decoded question encodes to the same bytes and decodes to itself |
| `WireResponse.EncodeResponse` | internal/dns/gateways/wire/udp_codec.go:140-227 | the response encoder, with its errors in order |
| `WireResponse.EncodeOwner` | internal/dns/gateways/wire/udp_codec.go:99-115 | the wire name encoder keeps empty labels |
| `WireResponse.DecodeResponse` | internal/dns/gateways/wire/udp_codec.go:231-307 | the response decoder: skipping questions, then three sections |
| `WireLayout.ResponseDecodesExactly` | internal/dns/gateways/wire/udp_codec.go:231-307 | decoding gives a response exactly if the message is one: expected ID, the low four bits of the flags for a code, the questions, and as many records as counted in each section, each spelled in any way |
| `WireLayout.RecordDecodesExactly` | internal/dns/gateways/wire/udp_codec.go:310-353 | a record is read exactly where one lies, and up to its end |
| `WireLayout.RecordFailsExactly` | internal/dns/gateways/wire/udp_codec.go:310-353 | each failure of the record parser and exactly when it comes |
| `WireResponse.ResponseFailsExactly` | internal/dns/gateways/wire/udp_codec.go:231-307 | decoding fails as the first of its checks that fails, or as the first record that does |
| `WireResponse.ResponseOverflowsExactly` | internal/dns/gateways/wire/udp_codec.go:231-307 | decoding a response exhausts the stack exactly if it gets past header and questions and to a record, of any section, whose name leads into one label run twice |
| `WireResponse.PointingBackReturns` | internal/dns/gateways/wire/udp_codec.go:75-87 | queries and responses are decoded in the end if the names read have pointers that target offsets below the start of their label run |
| `WireRoundTrip.OwnerReadExactly` | internal/dns/gateways/wire/udp_codec.go:99-115 | a written name is read up to its first empty label, so completely exactly if it has none |
| `WireRoundTrip.RecordReadsBack` | internal/dns/gateways/wire/udp_codec.go:182-353 | an encoded answer, compressed or not, is parsed to the record the receiver should have |
| `WireRoundTrip.ResponseReadsBack` | internal/dns/gateways/wire/udp_codec.go:140-353 | a whole encoded response decodes to its answers in order, or to the first failure, a panic of an RDATA decoder included, and never exhausts the stack |
| `WireRoundTrip.AnswersFoundExactly` | internal/dns/gateways/wire/udp_codec.go:250-265 | the answers are looked for where they start exactly if the question's name has no empty label |
| `WireRoundTrip.QuestionIsEchoed` | internal/dns/gateways/wire/udp_codec.go:164-172 | the question section of an encoded response reads as the question exactly if no label of its name is empty |
| `WireRoundTrip.EncodesExactly` | internal/dns/gateways/wire/udp_codec.go:140-227 | a response is encoded exactly if it has at most 65535 answers, each with at most 65535 bytes of data, and no label above 63 bytes in the question's name or in an owner not sent as a pointer |
| `WireRoundTrip.EncodeFailsExactly` | internal/dns/gateways/wire/udp_codec.go:140-227 | each error of the encoder: too many answers, a long label in the question, or the first answer that does not fit |
| `WireRoundTrip.LabelsWritten` | internal/dns/gateways/wire/udp_codec.go:64-115 | for any name that was read, the labels written are those read, split at their dots, and an empty one if a pointer to the root stood behind them |
| `WireRoundTrip.ReadNameWritten` | internal/dns/gateways/wire/udp_codec.go:64-115 | so a name without dots in its labels can be written exactly if they have at most 63 bytes, and is read back whole exactly without such a pointer |
| `WireRoundTrip.QueryIsAnswered` | internal/dns/gateways/wire/udp_codec.go:118-172 | the response to a decoded query is encoded only if no label of its name is above 63 bytes, and its answers are looked for where they start exactly if no pointer to the root stands behind its labels |
| `WireRoundTrip.ResponseRoundTrip` | internal/dns/gateways/wire/udp_codec.go:140-353 | the same answers come back exactly if each is acceptable, the first owner is the question's canonical name and the others are canonical |
| `WireRoundTrip.NamesSurviveMeans` | internal/dns/gateways/wire/udp_codec.go:185-196 | that condition on owners in terms of the first owner and the question |
| `Upstream.ResolveSerial` | internal/dns/gateways/upstream/resolver.go:118-128 | the first success in order, or the number of servers and the last error |
| `Upstream.RunInv` | internal/dns/gateways/upstream/resolver.go:131-195 | every schedule keeps the invariant: no server reports twice, and before cancellation no error and no first success is lost |
| `Upstream.RoomForError` | internal/dns/gateways/upstream/resolver.go:134-155 | errors in flight and collected are fewer than the servers whenever one is to be sent |
| `Upstream.ResultIsTrue` | internal/dns/gateways/upstream/resolver.go:168-194 | an answer is some server's own; a timeout means an expired context and no goroutine left; failure means that every server failed, each with its error once in the report |
| `Upstream.FailureIsInTime` | internal/dns/gateways/upstream/resolver.go:187-194 | failure of all is reported only if all had failed before the context expired |
| `Upstream.ParallelFailsWhenSerialFails` | internal/dns/gateways/upstream/resolver.go:118-195 | while the context lives, the parallel form fails exactly when the serial one does |
| `Upstream.SendsNeverBlock` | internal/dns/gateways/upstream/resolver.go:148-164 | no goroutine waits to send, even after the caller returned, and the default case never drops an error |
| `Upstream.NeverStuck` | internal/dns/gateways/upstream/resolver.go:131-195 | until the caller is back and every goroutine gone, the program can step, waiting on the group included |
| `Upstream.RunsAreBounded` | internal/dns/gateways/upstream/resolver.go:131-195 | no run has more than six steps a server and eight more |
| `Upstream.MaximalRunsReturn` | internal/dns/gateways/upstream/resolver.go:131-195 | every run that cannot go on has returned, without expiry with an answer if any server succeeds |
| `Alias.LookupsDecide` | internal/dns/services/resolver/alias.go:119-177 | from any hop that is got to: the zones' records for the client's question with the trimmed target for its name, or else the zones' alias for it, or else what upstream says to that question, end the chain, or go on with another alias |
| `Alias.TargetsFail` | internal/dns/services/resolver/alias.go:133-151 | a blank target or a question no other can be made from ends it with its error |
| `Alias.FastPath` | internal/dns/services/resolver/alias.go:102-107 | records that do not begin with a CNAME, and all if one was asked for, are returned as they are |
| `Alias.OnlyTargetsAreAsked` | internal/dns/services/resolver/alias.go:159-177 | upstream clients that agree on these questions, where the zones have nothing, give the same outcome |
| `Alias.UpstreamHasNoSay` | internal/dns/services/resolver/alias.go:159-177 | where the zones have records or an alias behind every alias the chase followed, any upstream client gives the same outcome |
| `Alias.AliasChaser.GuardDepth` | internal/dns/services/resolver/alias.go:237-249 | counts the hop and reports the limit |
| `Alias.AliasChaser.GuardLoop` | internal/dns/services/resolver/alias.go:252-265 | records the lower-case owner and reports a repeated one |
| `Alias.AliasChaser.LookUp` | internal/dns/services/resolver/alias.go:159-177 | the lookups behind one alias |
| `Alias.AliasChaser.Step` | internal/dns/services/resolver/alias.go:119-156 | one hop: the new chain, visited owners and current records, and how it ends |
| `Alias.AliasChaser.Chase` | internal/dns/services/resolver/alias.go:102-115 | for arbitrary lookups the loop terminates with the outcome the unguarded path determines |
| `Alias.LoopHead` | internal/dns/services/resolver/alias.go:109-156 | at each loop head depth, chain and visited owners agree, all hops are CNAMEs with distinct owners along the path |
| `Alias.PathIsUnique` | internal/dns/services/resolver/alias.go:119-156 | there is one path of aliases of each length |
| `Alias.OutcomeIsUnique` | internal/dns/services/resolver/alias.go:102-156 | chain and error are determined by lookups, limit, question and first records |
| `Alias.DepthErrorExactly` | internal/dns/services/resolver/alias.go:237-249 | the depth error comes exactly if there are more aliases than the limit and the first ones have distinct owners |
| `Alias.LoopErrorExactly` | internal/dns/services/resolver/alias.go:252-265 | the loop error comes exactly if the first repeated owner is within the limit |
| `Alias.WholePathOtherwise` | internal/dns/services/resolver/alias.go:119-156 | in all other cases the chain is the whole path of aliases and what stands behind it |
| `Alias.RaisingTheLimit` | internal/dns/services/resolver/alias.go:237-249 | a higher limit, or none, changes nothing for a chase not stopped by the limit |
| `Alias.NoErrorExactly` | internal/dns/services/resolver/alias.go:237-265 | neither error comes exactly if all paths of aliases are within the limit and meet no owner twice |
| `Alias.AcyclicNeverFails` | internal/dns/services/resolver/alias.go:237-265 | in a graph of alias records without cycles, with paths within the limit, there is neither error |
| `Alias.ThreeAliases` | internal/dns/services/resolver/alias.go:102-156 | such a graph of three aliases, its whole chain within a limit of three and the error with two |
| `Alias.FiniteOwnersStop` | internal/dns/services/resolver/alias.go:252-265 | with finitely many owners the chase ends even without a limit |
| `Alias.EndsOnlyIfStops` | internal/dns/services/resolver/alias.go:102-115 | without a limit it ends only if the path ends or comes back to an owner |
| `DnsCache.Cache.Set` | internal/dns/repos/dnscache/dnscache.go:33-46 | stores a list under its one key, or reports mixed keys and stores nothing |
| `DnsCache.Cache.Get` | internal/dns/repos/dnscache/dnscache.go:51-71 | returns the unexpired records and stores them back, or removes the key |
| `DnsCache.Cache.Delete` | internal/dns/repos/dnscache/dnscache.go:74-76 | removes the key |
| `DnsCache.RunAgrees` | internal/dns/repos/dnscache/dnscache.go:33-76 | every run keeps agreement with the flat map: stored lists are non-empty, under their key, and equal from now on to what was stored |
| `DnsCache.PruningIsUnobservable` | internal/dns/repos/dnscache/dnscache.go:51-71 | a hit is the unexpired part of the list last stored, a miss without eviction means there is none, and the size stays within capacity |
| `DnsCache.HitsAreAlive` | internal/dns/repos/dnscache/dnscache.go:51-71 | over every run an answer is the records not past their expiry, in order, of the list last set under the key, and is all of these unless the key was evicted |
| `DnsCache.ServedForItsTTL` | internal/dns/domain/record.go:41-56 | a record cached on arrival is answered until its TTL has passed, and not after |
| `DnsCache.GetPrunes` | internal/dns/repos/dnscache/dnscache.go:51-71 | a lookup leaves under its key what it answered, or nothing, and every other key as it was |
| `DnsCache.FlatIsLatest` | internal/dns/repos/dnscache/dnscache.go:33-46 | the flat map holds the latest list stored and not deleted since |
| `DnsCache.AgreesWithFlat` | internal/dns/repos/dnscache/dnscache.go:33-76 | with room for all keys the cache answers as the flat map does |
| `DnsCache.EvictsLeastRecent` | internal/dns/repos/dnscache/dnscache.go:18-29 | the key evicted was last used before every key that stays |
| `ZoneCache.Cache.PutZone` | internal/dns/repos/zonecache/zonecache.go:50-67 | the grouping loop replaces the zone by the records grouped by key |
| `ZoneCache.Cache.RemoveZone` | internal/dns/repos/zonecache/zonecache.go:70-77 | removes the zone and nothing else |
| `ZoneCache.Cache.Count` | internal/dns/repos/zonecache/zonecache.go:93-103 | the number of pairs of zone and key |
| `ZoneCache.CountIsRecordsExactly` | internal/dns/repos/zonecache/zonecache.go:92-103 | over every run this is at most the number of records put and not removed, and that number exactly if no list put has two records under one key |
| `ZoneCache.CountMissesRecords` | internal/dns/repos/zonecache/zonecache.go:92-103 | a zone of two records that counts as one |
| `ZoneCache.GroupsPartition` | internal/dns/repos/zonecache/zonecache.go:57-63 | each record is in its key's group as often as in the list, and in no other group |
| `ZoneCache.FindIsFilter` | internal/dns/repos/zonecache/zonecache.go:28-77 | over every run, with records of supported classes and names without separator, a lookup is the filter, by canonical name, type and class, of the list last put for the zone the public suffix list gives for the name, or for the name itself; the question may have any class, and any name if the list invents no separator |
| `ZoneCache.FoundInZone` | internal/dns/repos/zonecache/zonecache.go:28-47 | over every run and whatever the names, nothing put for another zone is found |
| `ZoneCache.FoundHaveType` | internal/dns/repos/zonecache/zonecache.go:28-77 | over every run and whatever the names and classes, all records found have the question's type |
| `Resolver.Resolver.HandleQuery` | internal/dns/services/resolver/resolver.go:50-109 | the pipeline: answer, its source, and the cache afterwards |
| `Resolver.AnswersBySource` | internal/dns/services/resolver/resolver.go:50-141 | whatever the cache holds, or without one: ID and question echoed; the zones first, then the blocklist; code and records of every source, and a server failure exactly for a fatal alias error or an upstream client that fails or is missing |
| `Resolver.ServfailExactly` | internal/dns/services/resolver/resolver.go:132-141 | the zone path fails, with an empty answer, exactly for paths of aliases too long or coming back to an owner |
| `Resolver.ZonesNeverStartAChase` | internal/dns/services/resolver/resolver.go:111-127 | what the zone cache finds never begins with a CNAME unless one was asked for |
| `Resolver.CachedResolverRefines` | internal/dns/services/resolver/resolver.go:50-109 | over every run each answer is one a resolver without a cache gives, for a cached one if upstream gave what is not past its expiry of the reply it last gave that was cached under the question's key; upstream is asked only if that is nothing |
| `Resolver.CachedAnswersFit` | internal/dns/services/resolver/resolver.go:76-155 | over every run each record of a cached answer has the question's type, its class unless both are unsupported, and its canonical name unless separators let the names overlap |
| `RdataFields.EncodeMXData` | internal/dns/common/rrdata/015mx.go:11-31 | the MX encoder and when it fails |
| `RdataFields.MxExactly` | internal/dns/common/rrdata/015mx.go:11-31 | which texts are accepted, and for which bytes: a signed numeral of sixteen bits, high byte first, and a name |
| `RdataFields.MxTextExactly` | internal/dns/common/rrdata/015mx.go:34-45 | which bytes decode, and to what |
| `RdataFields.MxRoundTrip` | internal/dns/common/rrdata/015mx.go:11-45 | an accepted MX text decodes to its normal form, which encodes to the same bytes exactly if the exchange is not the root |
| `RdataFields.EncodeSRVData` | internal/dns/common/rrdata/033srv.go:13-38 | the SRV encoder and when it fails |
| `RdataFields.SrvExactly` | internal/dns/common/rrdata/033srv.go:13-38 | which texts are accepted, and for which bytes |
| `RdataFields.SrvTextExactly` | internal/dns/common/rrdata/033srv.go:41-62 | which bytes decode, and to what |
| `RdataFields.DecodeSRVData` | internal/dns/common/rrdata/033srv.go:41-62 | the SRV decoder |
| `RdataFields.SrvRoundTrip` | internal/dns/common/rrdata/033srv.go:13-62 | what an accepted SRV text decodes to encodes to the same bytes exactly if the target is not the root, and is then the normal form |
| `RdataFields.EncodeSOAData` | internal/dns/common/rrdata/006soa.go:11-49 | the SOA encoder and when it fails |
| `RdataFields.SoaExactly` | internal/dns/common/rrdata/006soa.go:11-49 | which texts are accepted, and for which bytes |
| `RdataFields.SoaTextExactly` | internal/dns/common/rrdata/006soa.go:52-83 | which bytes decode, and to what |
| `RdataFields.DecodeSOAData` | internal/dns/common/rrdata/006soa.go:52-83 | the SOA decoder, slice bounds included |
| `RdataFields.SoaRoundTrip` | internal/dns/common/rrdata/006soa.go:11-83 | an accepted SOA text survives decoding and encoding exactly if neither name is the root, and decodes to its normal form then |
| `RdataFields.SoaPanicsExactly` | internal/dns/common/rrdata/006soa.go:52-83 | the decoder slices out of bounds exactly if, of at least 25 bytes, the first name runs to the end, or what it takes for the second does or is a last zero byte |
| `RdataFields.SoaPanics` | internal/dns/common/rrdata/006soa.go:52-83 | 25 bytes of one label do so |
| `RdataText.EncodeTXTData` | internal/dns/common/rrdata/016txt.go:9-29 | the TXT encoder and when it fails |
| `RdataText.SegmentsMean` | internal/dns/common/rrdata/016txt.go:9-29 | the segments of a text are the trimmed pieces between its semicolons that are not empty |
| `RdataText.TxtExactly` | internal/dns/common/rrdata/016txt.go:9-29 | which texts are accepted, and for which bytes |
| `RdataText.TxtTextExactly` | internal/dns/common/rrdata/016txt.go:32-47 | which bytes decode, and to what |
| `RdataText.DecodeTXTData` | internal/dns/common/rrdata/016txt.go:32-47 | the TXT decoder |
| `RdataText.TxtRoundTrip` | internal/dns/common/rrdata/016txt.go:9-47 | an accepted TXT text decodes to its segments, and that text encodes to the same bytes |
| `RdataText.CaaExactly` | internal/dns/common/rrdata/257caa.go:10-42 | which texts are accepted, and for which bytes |
| `RdataText.CaaTextExactly` | internal/dns/common/rrdata/257caa.go:45-68 | which bytes decode, and to what |
| `Rdata.CodecsByName` | internal/dns/common/rrdata/decoding.go:10-53 | which codec serves the type of which name, in both directions |
| `RdataText.CaaRoundTrip` | internal/dns/common/rrdata/257caa.go:10-68 | an accepted CAA text decodes to its normal form, which encodes to the same bytes, up to 253 bytes of tag; above, the decoder slices out of bounds |
| `Rdata.ReencodesExactly` | internal/dns/common/rrdata/decoding.go:10-53 | for every type but the addresses, what an accepted text decodes to encodes to the same bytes exactly under its type's condition |
| `Rdata.LegibleIsDecoded` | internal/dns/common/rrdata/decoding.go:10-53 | data of an accepted text is decoded, for SOA if neither name is the root and for CAA up to 253 bytes of tag |
| `Rdata.PanicsExactly` | internal/dns/common/rrdata/decoding.go:10-53 | on which SOA and CAA data decoding panics; on no other |
| `Rdata.TextsSurvive` | internal/dns/gateways/wire/udp_codec.go:140-353 | a response of records made from accepted texts comes back the same, and each received text stands for the data sent exactly under its type's condition |

## Left out

- ResponseRoundTrip: names have no empty labels if there are answers; past an empty label the reader is out of step with the writer (`AnswersFoundExactly`, `OwnerReadExactly`), and what it then reads depends on every following byte.
- Strings outside ASCII: Unicode white space and case folding are not modelled; bytes above 127 are left as they are.
- Sockets, dialing, deadlines, the listening loop and program start-up: input and output.  A server's query is an outcome given in advance, which cancellation may replace by an error.
- A and AAAA: text of IP addresses comes from Go's library, so their codecs are arbitrary functions.  Message lemmas hold for every RDATA decoder.
- The public suffix list: an arbitrary function.
- The LRU library: modelled by its documented behaviour, on values.
- Slices shared between caches and callers: lists are values here, so aliasing of a stored list is not captured.
- The clock: one instant for each operation or message, in whole nanoseconds; seconds are rounded down and cut to 32 bits.
- Zone cache locking: each operation is one atomic step; the resolver's zones do not change during a run.
- Reading zone files, configuration, logging, the blocklist's contents, error texts: error tags stand for errors.
