# A verified model of SmartDNS's rule index, cache and answer selection

SmartDNS is a DNS forwarder: it decides by domain rules how a name is answered, asks several upstreams, picks an
address by speed, and caches what it got. This project models the parts of it where a mistake would be silent, and
proves what they promise for every input, every run or every interleaving.

| file | what it models |
|---|---|
| `Common.dfy`, `Messages.dfy`, `Lookups.dfy` | options, bytes, DNS records and messages, lookup results |
| `WireNames.dfy` | names packed into a fixed buffer, whose suffixes are the parent names |
| `DomainIndex.dfy` | the index from rules to values and its lookup |
| `DomainRules.dfy`, `RuleWalks.dfy` | rules, inheritance, and every walk up the zone chain |
| `RuleTree.dfy`, `RuleStore.dfy` | the inheritance tree and its construction with shared rules and a memo |
| `Responses.dfy`, `TtlLimits.dfy` | responses with a prepared encoding, replies, and TTL limits |
| `CacheEntries.dfy`, `Cache.dfy` | cache entries and the cache |
| `CacheRuns.dfy`, `Admission.dfy` | runs of the cache, and what may be stored |
| `SpeedChecks.dfy` | requests, deferred speed checks and prefetches sharing the cache |
| `CacheFile.dfy`, `Reload.dfy` | the saved cache, and loading it again |
| `Selection.dfy`, `Upstream.dfy` | choosing among upstream answers |

`dafny verify dfyconfig.toml` checks everything.

## What the code does not promise

Six properties one would expect fail. Each is stated with an input that shows it and with the exact condition under
which the code does meet it.

- The tree depends on hash-map order when two `*` rules of one name match the same label: their sort keys are equal, and
  the first one inserted wins (`RuleTree.OrderIndependentIff`, with two such rules in `RuleTree.TwoPatternsDisagree`).
- The index and `WildcardName::is_match` differ for the root, which a `*` rule below it declares to match, and for query
  names that begin with `*`, which the index looks up as their parent (`DomainIndex.FoundIffDeclared`, with inputs in
  `DomainIndex.RootSubIsNotFound` and `DomainIndex.StarNameDiffers`). Only tests call `is_match` in this source.
- An answer is cached under the question it carries, not the one that was asked. When they differ in type, what is stored
  need not be admissible for its own key (`Admission.OwnTypeIff`). The client for plain UDP upstreams drops an answer
  to another question, but not one without any, which is cached as an answer for the root's address
  (`Admission.UdpOwnTypeIff`). What answers TCP, TLS, HTTPS and QUIC upstreams deliver is decided by a library that is
  not part of this model.
- A claim is refused while a refresh or prefetch runs, yet any store of the key lifts the mark. More than one is under
  way at some point of a run exactly when something tries to take the key up after it was stored while one is
  (`SpeedChecks.OneRefreshAtATimeIff`, with runs in `SpeedChecks.TwoRefreshesOfOneKey` and
  `SpeedChecks.PrefetchLiftsClaim`).
- A rule without a nameserver that sets a recheck turns it on for the group its parent chose, although the walk is
  documented to let the rule that chose the group decide (`RuleWalks.RecheckAgreesIff`).
- The 8-bit counters of the probing selection wrap at 256 occurrences of one address (`Selection.CountersPickRightIff`).

Smaller ones are stated the same way: what saving an entry changes (`CacheFile.ComesBackIffExact`), a deadline that
saving moves by more than a second (`CacheFile.DeadlineMovesLittleIff`), a deadline more than 32 bits of seconds away
(`CacheEntries.ReplySecondsExactIff`), a reply maximum above the maximum (`TtlLimits.ReplyMaxOnlyLowersIff`), and the
recency order after a reload, which is reversed (`Reload.ReloadReversesRecency`). A group name of 65536 bytes or more
is written with a length cut to 16 bits. It harms nothing while the encoder refuses entries beyond 65535 octets
(`CacheFile.LimitSparesFile`), and could spoil a whole file if it did not (`CacheFile.LongGroupSpoilsFile`).

## Assumptions

- The 64-bit hashes of index keys and of rules have no collisions, so keys are modelled by what they hash.
- Names are compared after lowercasing and without a trailing dot; configured names are within the limits of section
  2.3.4 of RFC 1035, as the name type of the program guarantees.
- `Wildcard::is_match`, the message codec and the probes are arbitrary functions. The codec's result depends on the
  records and on the upper response-code bits, and what it writes it reads back. The encoder refuses an entry longer
  than a limit, which is left open because the encoder is not part of this source. A probe of several addresses reports
  one of them. Query results arrive in an arbitrary order, in which a timeout is one more error.
- Time is an integer in nanoseconds passed to each operation. A locked operation on the cache is one step, and so is the
  return of a permit; steps of different requests and background tasks interleave freely.

## Model

| member | source | states |
|---|---|---|
| WireNames.WireName.New | src/collections.rs:54-75 | packing succeeds exactly within the label, length and count limits, and then the buffer holds the lowercase encoding and the untruncated offset of every label |
| WireNames.LowerAllIff | src/collections.rs:70 | lowering changes letter case only and leaves no upper case, and two names are lowered to the same exactly when they differ in letter case only |
| WireNames.WireName.Parent | src/collections.rs:77-85 | the slice for a level is the encoding of the name without that many labels, the root's past the end |
| WireNames.EncodeSuffix | src/collections.rs:43-45 | the encoding of a label suffix is the suffix of the encoding at that label's offset |
| WireNames.EncodeInjective | src/collections.rs:88-94 | names with equal wire forms are equal, so keys that differ stand for rules that differ |
| DomainIndex.Select | src/collections.rs:117-121 | the matching rule of least rank: nearest level, then full, `*`, suffix, default, then first inserted; none exactly when no rule matches |
| DomainIndex.DomainMap.Find | src/collections.rs:122-148 | the level-by-level probing returns the value of the matching rule of least rank, and nothing for names beyond the limits |
| DomainIndex.DomainMap.FindSub | src/collections.rs:134-141 | the scan of one bucket finds the first inserted `*` rule that matches, and it has least rank |
| DomainIndex.DomainMap.GetExact | src/collections.rs:151-162 | the value bound to exactly this kind and name |
| DomainIndex.DomainMap.Insert | src/collections.rs:181-197 | rebinds an existing rule in place or appends a new one, returns the old value, and ignores names beyond the limits |
| DomainIndex.DomainMap.Remove | src/collections.rs:199-214 | removes exactly that rule, returns its value, and leaves no empty bucket |
| DomainIndex.DomainMap.IsEmpty | src/collections.rs:175-177 | true exactly when no rule is stored |
| DomainIndex.DeclaredMatchesAgree | src/config/domain.rs:32-46 | rule by rule, the lookup and the declared matching differ for the root and for `*` names only, in two families of rules spelled out by kind and name |
| DomainIndex.FoundIffDeclared | src/collections.rs:122-148 | the lookup finds a rule exactly when some rule declares a match, if and only if the name is neither the root nor a `*` name, or a rule covers it in both senses, or both families are present or both are not |
| DomainIndex.RootSubIsNotFound | src/config/domain.rs:36-43 | a `*` rule below the root declares a match with the root, and the lookup finds nothing |
| DomainIndex.StarNameDiffers | src/collections.rs:126-127 | for `*.a`, the suffix rule of `a` declares a match and is not found, and the full rule of `a` is found without declaring one |
| DomainIndex.SelectIgnoresCase | src/collections.rs:120-121 | for wildcards that do not look at case, names that differ only in the case of letters select the same rule |
| DomainIndex.FoundIgnoresCase | src/collections.rs:122-148 | so the lookup finds the same rule for both |
| DomainIndex.FoundByAnySpelling | src/collections.rs:54-75 | a name finds the rule written for it in whatever case either is spelled |
| DomainIndex.SelectIsPreferred | src/collections.rs:117-121 | the selected rule is the full name if there is one, else the name's default rule, else the first inserted pattern for its label, else at the nearest parent with either the rule for what is below it before the parent's own |
| DomainIndex.NoneIsPreferred | src/collections.rs:122-148 | and when none is selected there is none of these |
| DomainRules.InheritIsNearest | src/config/domain_rule.rs:48-91 | each option, the TTL options as one, is the rule's own or else the parent's |
| RuleWalks.MergedIsNearest | src/config/domain_rule.rs:48-91 | a merged rule has each option as the nearest rule of the chain sets it |
| RuleWalks.GettersAreNearest | src/dns_rule.rs:239-267 | both getters, which look one or two rules up, give the nearest setting of every option on the whole chain |
| RuleWalks.ServerGroupName | src/dns.rs:70-87 | the bind group, else the first nameserver up the chain, else `default` |
| RuleWalks.GroupOnMergedChain | src/dns.rs:70-87 | walking merged rules gives the same group as walking the rules as written |
| RuleWalks.GroupIsFirst | src/dns.rs:75-83 | the group is the nameserver of the first rule up the chain that has one, and none exactly when no rule has |
| RuleWalks.FindRecheck | src/dns_mw_ns.rs:249-265 | the decision of the first rule with a nameserver |
| RuleWalks.RecheckByFirst | src/dns_mw_ns.rs:249-265 | the first rule with a nameserver decides on a recheck exactly when that nameserver is the group, and the rule names another group and an ip-set, which are then the recheck's |
| RuleWalks.RecheckOnMergedChain | src/dns_mw_ns.rs:246-265 | over merged rules the decision uses the nearest recheck options at or below the rule that sets the nameserver |
| RuleWalks.RecheckAgreesIff | src/dns_mw_ns.rs:246-265 | merged and written rules decide alike for every group exactly when no rule below the chooser brings in a recheck that takes effect |
| RuleWalks.NoRecheckBelowIsUndisturbed | src/config/domain_rule.rs:68-70 | rules without a nameserver that set no recheck option never disturb the decision |
| RuleWalks.RecheckCanDisagree | src/config/domain_rule.rs:68-70 | a two-rule chain on which the two walks decide differently |
| RuleWalks.HandleRuleAddr | src/dns_mw_addr.rs:101-191 | forced SOA first, then the address rules up the chain |
| RuleWalks.ForcesSoaIff | src/dns_mw_addr.rs:115-129 | the types with a forced SOA: the listed ones, and AAAA and HTTPS when those are on, and none under `no-rule-soa` |
| RuleWalks.NearestAddressDecides | src/dns_mw_addr.rs:136-188 | the nearest address either ends the walk with its verdict or leaves it to the rules above |
| RuleWalks.AddressOutcome | src/dns_mw_addr.rs:136-188 | an address query gets what the first rule with an address that does not pass it on decides: a block for `#`, `#4` and `#6` of the family, nothing for `-`, `-4` and `-6` of the family, the rule's addresses of the family with IPv4 ones mapped when there are no IPv6 ones, and a block when it has none |
| RuleWalks.OtherTypesOutcome | src/dns_mw_addr.rs:141-147 | other types are answered by `#` only, as the nearest address and while blocks are on |
| RuleWalks.AnswersFitTheQuery | src/dns_mw_addr.rs:136-188 | an outcome is addresses of the type asked for or a block, and nothing is blocked under `no-rule-soa` |
| RuleWalks.AddressOnMergedChain | src/dns_mw_addr.rs:136-188 | the outcome over merged rules is the outcome over the rules as written |
| RuleTree.ZoneName | src/dns_rule.rs:187-211 | every zone link leads to a rule of the map with a strictly smaller key, so every walk ends |
| RuleTree.SameNameMatchesMore | src/dns_rule.rs:191-204 | the same-name rule that a rule inherits from matches whatever the rule matches, and a pattern takes the narrower of two |
| RuleTree.ChainHasEveryDefault | src/dns_rule.rs:191-211 | a name without `*` labels inherits, directly or through others, from every default rule written for it or for a domain above it |
| RuleTree.HalfBuiltZone | src/dns_rule.rs:137-149 | the zone found in the half-built map is the one in the finished map |
| RuleTree.TreeNodeIsMerged | src/dns_rule.rs:147-169 | the rules up a node's chain are the merged rules of the chain as written |
| RuleTree.TreeAnswersAsWritten | src/dns_rule.rs:147-169 | in the finished tree every option, the group, the address outcome and an undisturbed recheck are what the written rules say |
| RuleTree.OrderIndependentIff | src/dns_rule.rs:137-142 | a name finds the same rule in every sorted order exactly when no two `*` rules compete for it |
| RuleTree.TwoPatternsDisagree | src/dns_rule.rs:137-142 | two patterns for one name that match the same label: either is selected, by the order alone |
| RuleTree.AmbiguousDisagrees | src/config/domain.rs:59-77 | from any ambiguity, a second sorted order that selects another rule |
| RuleTree.UnambiguousAgrees | src/dns_rule.rs:137-142 | without ambiguity any two orders select the same rule |
| RuleTree.TreeIgnoresOrder | src/dns_rule.rs:137-170 | then the whole tree is the same whatever order the hash map gave |
| RuleTree.SortParentsFirst | src/dns_rule.rs:137-142 | a permutation of the names, sorted by label count and inherit order |
| RuleStore.OwnIsFold | src/dns_rule.rs:76-135 | a name's rule is the fold of the updates of the lines that cover it, whatever those lines do to other names |
| RuleStore.OwnOption | src/dns_rule.rs:76-135 | each option of a name is what the last line for it that sets the option gives, and unset when none does; an address, forward, cname, srv, https or nftset line sets its own option only |
| RuleStore.OwnTexts | src/config/domain_rule.rs:95-97 | the texts of all lines for a name add up in order |
| RuleStore.OwnNames | src/dns_rule.rs:76-135 | the names with a rule are exactly those some line covers, by name or through a set |
| RuleStore.GroupAsConfigured | src/dns_rule.rs:93-100 | in the finished tree a name's group is the last one the lines give the nearest name of its chain that is given any, and none when no name of the chain is |
| RuleStore.Store.Intern | src/dns_rule.rs:41-47 | the address holds the rule and is held by the table, which only gains rules |
| RuleStore.RetainedStays | src/dns_rule.rs:41-47 | a held address keeps its rule through interning and through reuse of free addresses |
| RuleStore.UpdateRule | src/dns_rule.rs:27-48 | one name's rule changes as the update says and no other name's does |
| RuleStore.BuildRules | src/dns_rule.rs:73-135 | the shared rules are, by name, the rules as written |
| RuleStore.MemoStays | src/dns_rule.rs:144-164 | memo entries stay keyed by held addresses and stay the merge of what is there |
| RuleStore.MergeOnce | src/dns_rule.rs:150-164 | the memoised merge is the direct merge of the two rules |
| RuleStore.ZoneOf | src/dns_rule.rs:191-211 | the node of the rule a name inherits from in the map at hand |
| RuleStore.Create | src/dns_rule.rs:60-173 | the finished map holds every written rule with the node the finished tree gives it, whatever was shared, memoised or reclaimed |
| Responses.HeaderRoundTrip | src/dns.rs:303-314 | the header octets give back every flag and the low response-code bits |
| Responses.WithMaxTtl | src/dns.rs:802-823 | every section's TTLs are capped, and the encoding is kept exactly when nothing changes |
| Responses.DnsResponse.PrepareWire | src/dns.rs:655-659 | the prepared encoding is that of the current message |
| Responses.DnsResponse.ToVec | src/dns.rs:669-674 | reusing a prepared encoding gives the bytes of encoding anew |
| Responses.DnsResponse.Change | src/dns.rs:745-751 | any other change of the message drops the encoding and the received size |
| Responses.DnsResponse.SetNewTtl | src/dns.rs:793-800 | answers get the TTL; the encoding is dropped exactly when the message changes |
| Responses.DnsResponse.SetMaxTtl | src/dns.rs:802-823 | the in-place loops cap every section; the encoding is dropped exactly when the message changes |
| Responses.DnsResponse.SetMinTtl | src/dns.rs:825-832 | answers are raised; the encoding is dropped exactly when the message changes |
| Responses.MakeReply | src/dns.rs:241-255 | truncation flags add up, an error of the request's header wins in header and message alike, and the encoding still fits the message |
| Responses.PatchedIsEncoded | src/dns.rs:301-315 | the patched encoding equals the encoding of the message under the reply's header |
| Responses.ReplyBytes | src/dns.rs:296-318 | the reply's bytes are those of encoding the reply as a message, counts and truncation bit included |
| TtlLimits.RrTtlLimits | src/dns.rs:94-133 | the limits by cases, non-zero and with the minimum at most the maximum |
| TtlLimits.RuleLimitsStand | src/dns.rs:89-93 | without a fixed TTL a rule's minimum stands, and its maximum exactly when its own minimum is not larger |
| TtlLimits.FixedTtlWins | src/dns.rs:95-105 | a fixed TTL, the rule's before the global one, is both limits, and zero sets none |
| TtlLimits.GlobalLimitsHold | src/dns.rs:106-133 | without options of the rule the global limits hold, the maximum raised to the minimum |
| TtlLimits.OtherLimitStays | src/dns.rs:106-133 | where the rule sets one limit, the global one on the other side stays unless it crosses it |
| TtlLimits.ClampsAgree | src/dns.rs:145-150 | the cache's and the reply's clamps agree on every TTL; the clamp stays within the limits, leaves what is within them, and is monotone and idempotent |
| TtlLimits.ReplyMaxOnlyLowersIff | src/dns_mw_addr.rs:82-86 | a reply maximum only lowers replies exactly when it is not above the maximum |
| TtlLimits.TruncateAnswers | src/dns_mw_addr.rs:48-70 | the shortest prefix with as many addresses as are allowed |
| TtlLimits.ClampAnswers | src/dns_mw_addr.rs:72-88 | every answer's TTL is clamped in place and nothing else changes |
| CacheEntries.NegativeTtlIsLeast | src/dns_mw_cache.rs:375-403 | an answer is negative exactly when it is NXDOMAIN, or NODATA without the type asked for, and has an SOA; and it lives exactly as long as its shortest-lived SOA and CNAME allow |
| CacheEntries.DeadIff | src/dns_mw_cache.rs:643-649 | an entry is dropped exactly when its deadline has passed and it is negative, or stale answers are off, or the stale limit has passed too |
| CacheEntries.ReplySecondsExactIff | src/dns_mw_cache.rs:655-659 | the seconds left are exact exactly below 32 bits, as they always are for stored answers |
| CacheEntries.AdjustedMessage | src/dns_mw_cache.rs:665-694 | what a hit changes in the stored message: each TTL of every section is the lesser of two, an answer of addresses alone is for the query's name, and nothing else |
| CacheEntries.HitTtls | src/dns_mw_cache.rs:655-694 | no TTL of a reply reaches beyond the deadline, nor once that has passed beyond the stale reply TTL, and below 32 bits an answer keeps as much of its own as that allows |
| CacheEntries.HitIsAdjusted | src/dns_mw_cache.rs:654-722 | remembered or fresh, a hit answers the adjustment of the stored message, with its encoding at hand once the TTL repeats, and keeps the entry's size and memo true |
| Cache.FitBudget | src/dns_mw_cache.rs:627-633 | a prefix of the entries in recency order that fits the budget |
| Cache.FitBudgetIsMaximal | src/dns_mw_cache.rs:627-633 | no more is dropped than the budget asks for |
| Cache.InsertedIsPresentIff | src/dns_mw_cache.rs:611-635 | an inserted entry is present afterwards exactly when it fits the budget on its own |
| Cache.DnsCache.InsertResponse | src/dns_mw_cache.rs:597-636 | the entry replaces its key's and takes over its hits or pushes out the last one, and the byte count stays the sum of the entries |
| Cache.DnsCache.PopWhileOver | src/dns_mw_cache.rs:627-633 | the loop drops exactly what the budget asks for, and its subtraction never saturates |
| Cache.DnsCache.Get | src/dns_mw_cache.rs:639-723 | answers exactly while the entry may be served, with the adjusted stored message, as valid exactly up to the deadline; removes the entry otherwise, and keeps count, capacity and budget |
| Cache.DnsCache.Load | src/dns_mw_cache.rs:69-85 | a loaded cache is within capacity and budget with a true byte count |
| Cache.DnsCache.Flush | src/dns_mw_cache.rs:572-575 | nothing is left and nothing is counted |
| Cache.DnsCache.BeginRefresh | src/dns_mw_cache.rs:739-748 | claims exactly a present, unmarked entry |
| Cache.DnsCache.EndRefresh | src/dns_mw_cache.rs:753-758 | lifts the mark and nothing else |
| Cache.DnsCache.FinishPrefetch | src/dns_mw_cache.rs:725-735 | lifts a mark and sets the retry time, only on a marked entry |
| Cache.DnsCache.GetExpired | src/dns_mw_cache.rs:760-823 | marks exactly the due entries, returns them by hits, and returns the least wait |
| Cache.DueListIsExact | src/dns_mw_cache.rs:781-810 | the list has each unmarked positive address entry that is past the check time and not waiting to retry, once, and nothing else |
| Cache.DueIff | src/dns_mw_cache.rs:781-804 | an entry is taken exactly when it is an unmarked positive address entry whose retry time has come and whose deadline is before the time ahead, less the prefetch delay while stale answers are served |
| Cache.SortByHitsSorts | src/dns_mw_cache.rs:814 | sorting orders by descending hits and loses nothing |
| Cache.WaitIsLeast | src/dns_mw_cache.rs:788-802 | the wait is the least delay any entry asks for, within a day |
| Cache.DelayIsTight | src/dns_mw_cache.rs:788-802 | an address entry that is not taken asks to wait exactly until its retry time, or until it would be taken |
| Cache.WaitIsLowerBound | src/dns_mw_cache.rs:788-802 | no skipped address entry becomes due before the wait is over |
| CacheRuns.RunKeepsValid | src/dns_mw_cache.rs:597-758 | on every run entries stay within capacity and budget, each with a true size and a true remembered reply |
| CacheRuns.RunAnswersAdjusted | src/dns_mw_cache.rs:639-722 | after any run a hit answers the adjusted stored message while the entry may be served, and removes it otherwise |
| CacheRuns.RunOrdersByLastUse | src/dns_mw_cache.rs:614-633 | on every run without a load, entries stand in the order of their last use, so what is dropped was used longest ago |
| CacheRuns.RunHoldsLastStored | src/dns_mw_cache.rs:597-635 | on every run without a load each entry holds what the last operation to store its key stored, and expires the TTL of that operation after its time |
| CacheRuns.NegativeIsNeverStale | src/dns_mw_cache.rs:643-654 | on every run without a load a negative answer is never given later than it was stored plus the lifetime it was stored with |
| CacheRuns.InsertDropsOldest | src/dns_mw_cache.rs:621-633 | when an entry stays through an insert, so does every entry before it |
| CacheRuns.InsertKeepsAll | src/dns_mw_cache.rs:613-633 | nothing is dropped while the count and the budget allow |
| CacheRuns.RunDropsLeastRecentlyUsed | src/dns_mw_cache.rs:613-633 | on every run without a load, when an insert keeps an entry it keeps every entry used after it |
| CacheRuns.InsertedEntry | src/dns_mw_cache.rs:604-620 | a stored entry expires its TTL after it was stored, is unmarked, and has one use more than the entry it replaced |
| CacheRuns.MarkedIsNotTaken | src/dns_mw_cache.rs:737-758 | on every run a marked entry is neither claimed nor handed out until its key is stored, finished or released, or the entry is gone |
| CacheRuns.SecondClaimIff | src/dns_mw_cache.rs:725-758 | on every run of operations that does not mark the key anew, refused claims and scans for other keys included, a second claim of a marked entry's key succeeds exactly when the key has been stored, ended or finished since and has an entry |
| CacheRuns.FailedPrefetchWaits | src/dns_mw_cache.rs:725-735 | on every run that does not replace the entry, a failed prefetch is not tried again before its retry time |
| SpeedChecks.PermitsMatchLookups | src/dns_mw_ns.rs:153-177 | over every interleaving the permits out are those of the lookups neither dropped nor done, at most 128, and another lookup gets one exactly while there are fewer |
| SpeedChecks.SystemRunIsCacheRun | src/dns_mw_cache.rs:196-231 | every interleaving of first stores, claims, better stores, releases and prefetches acts on the cache by its operations alone, and stores only what the two paths decided for the query of the request |
| SpeedChecks.EveryInterleaving | src/dns_mw_cache.rs:196-358 | over every interleaving the cache stays valid, and without a reload each entry was stored for a request and is admissible for what it asked |
| SpeedChecks.MarksHaveOwners | src/dns_mw_cache.rs:725-758 | over every interleaving a marked entry has a refresh or prefetch of its key under way, so no entry stays marked for good |
| SpeedChecks.OneRefreshAtATimeIff | src/dns_mw_cache.rs:737-748 | over every run, at most one refresh or prefetch of a key is ever under way if and only if no event tries to take the key up at a point where one is under way, the key has been stored since that one took it, and it has an entry |
| SpeedChecks.OneAtMostStepIff | src/dns_mw_cache.rs:739-748 | an event leaves at most one under way exactly when it does not take the key from one that is |
| SpeedChecks.MarkSince | src/dns_mw_cache.rs:597-635 | a key under way has lost its mark exactly when it has been stored since it was taken |
| SpeedChecks.TwoRefreshesOfOneKey | src/dns_mw_cache.rs:615-619 | a run of eight events after which two refreshes of one key are under way |
| SpeedChecks.PrefetchLiftsClaim | src/dns_mw_cache.rs:431-435 | a prefetch stores its key, a request stores and claims it, and the end of the prefetch lifts the mark of the refresh under way |
| SpeedChecks.PrefetchMeetsRequest | src/dns_mw_cache.rs:160-185 | a run that leads to the state that lemma starts from |
| Admission.RequestStoreIsAdmissible | src/dns_mw_cache.rs:302-358 | whatever the upstreams answer, the request path stores a negative answer with an SOA or one with a record of the queried type, without bogus addresses for address queries |
| Admission.SpeedCheckStoreIsAdmissible | src/dns_mw_cache.rs:211-223 | the same of the speed-check path |
| Admission.RequestStoresIff | src/dns_mw_cache.rs:314-352 | a request stores, unless caching is off, a negative answer for its lifetime within the limits if that is not zero, and an answer with the type asked for, for its least TTL within the limits; and nothing else |
| Admission.RequestStoresErrors | src/dns_mw_cache.rs:302-312 | negative errors are stored as the answers they stand for, other errors not at all |
| Admission.BogusIsNxDomain | src/dns_mw_bogus.rs:20-30 | an address answer with a bogus address becomes an NXDOMAIN, which is not stored |
| Admission.NegativeErrorIff | src/dns_error.rs:42-110 | an error stands for a negative reply exactly when the answer made of it is a valid response |
| Admission.SpeedCheckStoresIff | src/dns_mw_cache.rs:211-223 | a speed check stores exactly an answer with the type asked for and without bogus addresses, for its least TTL within the limits |
| Admission.RunKeepsAdmissible | src/dns_mw_cache.rs:211-358 | on every run without a load, each entry holds what the last store of its key stored, and that is admissible for the type the request behind that store asked for |
| Admission.RunKeepsOwnType | src/dns_mw_cache.rs:609-610 | when stored answers carry a question of the type that was asked, each entry is admissible for the type of its own key |
| Admission.OwnTypeIff | src/dns_mw_cache.rs:609-610 | whatever upstreams answer to a given question is stored as admissible for its key, exactly when the question has the type that was asked |
| Admission.ForeignQuestion | src/dns_mw_cache.rs:333-352 | an answer to another question is stored under that question without a record of its type |
| Admission.QuestionlessAnswer | src/libdns/custom/udp_client.rs:178-180 | an answer without a question passes the UDP client's test and is stored under the root's address key without such a record |
| Admission.UdpOwnTypeIff | src/libdns/custom/udp_client.rs:178-180 | all answers that pass that test are stored as admissible for their key exactly when an IPv4 address was asked for |
| Admission.BogusUnderForeignQuestion | src/dns_mw_bogus.rs:20-41 | a bogus address is stored for an address question when another type was asked for |
| CacheFile.EntryBack | src/dns_mw_cache.rs:953-1076 | an encoded entry is read back with what follows it left to read |
| CacheFile.Layout | src/dns_mw_cache.rs:953-999 | the tags of an entry's fields and where they stand |
| CacheFile.OlderFormatIsRead | src/dns_mw_cache.rs:1011-1056 | an entry of an older file, with the seconds left and no probe result, is read as such |
| CacheFile.ComesBackIffExact | src/dns_mw_cache.rs:953-1076 | an entry is written and comes back unchanged but for its deadline exactly when it is within the encoder's limit and has a non-empty group below 65536 bytes or none, hits below 2^32, and whole microseconds below 2^32 |
| CacheFile.LongGroupReadIff | src/dns_mw_cache.rs:976-983 | if the encoder's limit lets it be written, an entry with a group of 65536 bytes or more can be read exactly when the group's octets after its cut length look like the fields that follow |
| CacheFile.LimitSparesFile | src/dns_mw_cache.rs:1084-1092 | under a limit of 65535 octets no entry with such a group is written, and every file gives back what was written |
| CacheFile.LongGroupSpoilsFile | src/dns_mw_cache.rs:1095-1106 | otherwise such a written entry leaves nothing of the file readable, whatever stands before and after it |
| CacheFile.DeadlineMovesLittleIff | src/dns_mw_cache.rs:963-974 | when both clocks advance by the same whole seconds, the deadline moves by less than a second exactly when its expiry is a 64-bit second and, if it has passed, its whole seconds in the past reach back neither beyond the wall clock's nor the steady clock's start |
| CacheFile.EarlyDeadlineIsLost | src/dns_mw_cache.rs:1021-1027 | an entry that expired before the steady clock's start comes back as expiring when it is read |
| CacheFile.FileBack | src/dns_mw_cache.rs:1078-1107 | a file gives back the entries that were written, in order |
| CacheFile.SerializeMany | src/dns_mw_cache.rs:1079-1093 | the entries one after the other, without those that cannot be encoded |
| CacheFile.DeserializeMany | src/dns_mw_cache.rs:1095-1106 | the entries read one after the other, or an error as soon as one cannot be read |
| Reload.SavedSlotIsValid | src/dns_mw_cache.rs:1063-1074 | whatever a file holds, the entries it loads are valid and unmarked |
| Reload.ReloadReversesRecency | src/dns_mw_cache.rs:1125-1152 | a reload within capacity brings back all entries, in reverse order of use |
| Reload.SaveAndReload | src/dns_mw_cache.rs:1115-1162 | saved and loaded again, every entry comes back with its message, group, rounded probe, cut hits and the deadline that one of the reader's clock readings makes of it, in reverse order of use and cut to the budget; all that can be written are back exactly when they fit it |
| Reload.ReloadKeepsDeadlines | src/dns_mw_cache.rs:963-1027 | when the reader's clocks are the writer's some whole seconds later and deadlines are in range, every entry that comes back has its deadline within a second |
| Selection.FastestResponse | src/dns_mw_ns.rs:743-749 | the first valid result, else the last |
| Selection.TasksAreConserved | src/dns_mw_ns.rs:606-623 | every completed query is collected once, as an answer or an error |
| Selection.CollectAndProbe | src/dns_mw_ns.rs:638-729 | in every interleaving the loop ends with every result collected, every address probed once, and the first answer sent once |
| Selection.FastestIp | src/dns_mw_ns.rs:638-777 | the channel gets exactly what `fastest-response` would answer; the result is for an address of least elapsed time, or of greatest 8-bit count when no probe replied |
| Selection.FastestAnswerShape | src/dns_mw_ns.rs:752-769 | one record named by the query, measured exactly when some probe replied and failed otherwise |
| Selection.AnswerForCollected | src/dns_mw_ns.rs:752-769 | an address that occurs in a collected answer has an answer made of its first record there: with that TTL and data, for the name asked, without other answers and without the old encoding or size |
| Selection.Conclude | src/dns_mw_ns.rs:752-777 | the answer for the selected address, else the first answer, else the first error; neither unreachable point is reached |
| Selection.CountersPickRightIff | src/dns_mw_ns.rs:708-719 | the 8-bit counters pick a most frequent address for certain exactly when less frequent ones also count less after wrapping, as they do up to 255 occurrences |
| Selection.FastestAnswerIsMostFrequent | src/dns_mw_ns.rs:735-769 | without a reply, and with no address above 255 occurrences or counts that wrap in order, the answer is one record for a most frequent address |
| Selection.WrappedCountsPickWrong | src/dns_mw_ns.rs:718 | 256 occurrences of one address lose against one of another |
| Selection.FirstPing | src/dns_mw_ns.rs:552-636 | in every interleaving the result is for the address that the first probe to reply reports, all completed before it having failed; or, when every answer's addresses were probed without a reply, for a most frequent address |
| Upstream.FirstIsFirst | src/dns_client.rs:410-421 | the first result of a grade, if any has it |
| Upstream.RankedIsBest | src/dns_client.rs:390-431 | no result ranks before the chosen one, and none of its rank came earlier, or among failures later |
| Upstream.SelectResponse | src/dns_client.rs:390-431 | the first result of the best grade any has, the last among failures, and always a result to give |

## Left out

- Sockets, TLS, QUIC, HTTP, proxies, pings, kernel sets and mDNS: only their results appear, as arbitrary values.
- The wildcard matcher, the message codec, the LRU map, semaphores and the runtime: represented by small contracts.
- `DomainMap::len` and the set wrapper around the map: they would only add easy members.
- The canonical order names are sorted by first: any input order of the key sort is covered, so it adds nothing.
- `limit_remaining_queries` as code: its effect, that some results become timeouts, is covered by arbitrary results.
- `lookup_ip_answering_first` and `deferred_speed_check_mode`: the first only joins the channel and the selection, the second is a conjunction of settings.
- The loops over probe modes and the address filters before selection: they only shape the results selection gets.
- Choosing between a cached answer and an upstream query by group and stale settings, and statistics, in the cache middleware.
- Configuration parsing, logging, audit, the web interface and the updater.
- DNS64, dual-stack measurement, hosts and lease files: dual-stack appears only as an empty answer with an SOA.
- CacheFile.FileBack: a message so long that the encoder would cut records off it is taken as one the encoder refuses.
- Cache.DnsCache.GetExpired: the hit counts stay in the returned list, which the program drops after sorting.
- RuleStore.Create: names that differ only in case or a trailing dot are taken as one name, while the program keeps such rules apart until they are indexed.
