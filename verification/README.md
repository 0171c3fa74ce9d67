# Safe Network: proved behaviour

A Dafny model of six parts of the Safe Network code base, with proofs of what they keep over every
state, run and input.

- **Fault detector** (`Statistics`, `LoneOffender`, `SmallGroups`, `Detector`, `Ranking`, `Scores`, `Flagging`,
  `IssueHistory`, `FaultDetection`). Six trackers hold queues of timestamps per node. Scores per issue type are
  weighted and summed, and the nodes whose truncated score reaches the mean plus three standard deviations are flagged.
  The model works on exact real numbers: the code rounds the deviation up to a natural number of at least
  one, so the model takes the least natural number whose square reaches the variance. Times are
  natural numbers, in nanoseconds.
- **Connection cache** (`NodeLink`, `BiStreamSend`). Sends that share one cache of connections are a machine
  whose steps interleave in any order and fail at will; the retry loop of a single send is proved to be a run
  of that machine.
- **XOR-URLs and URL objects** (`Base32`, `BitText`, `Splitting`, `MediaTypes`, `XorLayout`, `HostNames`, `XorUrlName`,
  `NameText`, `Utf8`, `Utf8Scalars`, `Percent`, `QueryString`, `UrlState`, `SafeUrl`, `UrlText`). Text is the
  sequence of its UTF-8 bytes. The base-32 decoder rejects trailing bits that are not zero, as the decoding of
  version hashes requires (`sn_api/src/safeurl/version_hash.rs`, line 90). Other bases are left to an arbitrary function.
- **Config reconciler** (`Reconciling`, `Reconciled`, `SyncForecast`, `ContactFiles`, `Config`). The directory is a
  map from file name to contents, the formatting of keys an arbitrary function that never gives the name of the
  default file, and what other files and URLs give is an arbitrary environment. The default file is a hard link in the source;
  files are only ever replaced as a whole, so a link and a copy behave alike and the model copies.
- **Tree and listing of files** (`Lexicographic`, `Decimal`, `FileTree`, `OwnEntries`, `TreeCommand`,
  `FileListing`, `ListCommand`). A path map is the sequence of its entries in the order in which it is visited.
- **Communication loop** (`CommLinks`, `Aggregator`). The table of links over runs of commands, and the answer
  that is chosen from the results of several nodes.

`Ordered` and `Wrappers` are shared. `dafny verify dfyconfig.toml` checks the project.

## Where the code differs from what one would expect

Each of these is proved; where a property fails for some inputs only, so is the exact condition.

- Flagging is not monotone in a node's own issues, and a node that stands out raises the threshold out of its own
  reach: among seven elders only one less than 2.5 above the mean can be flagged
  (`Flagging.LoneOffenderFlaggedExactly`, `Flagging.FlaggedEldersAreNearTheMean`).
- Votes of elders are not expired, although the other trackers are (`IssueHistory.ElderVotesNeverExpire`).
- A change of members drops the issues of members that leave, not those of nodes that never were members: their keys
  stay for as long as they do not become members, and so do their vote issues, while other issues expire
  (`IssueHistory.TrackingStrangersLeaks`, `IssueHistory.StrangersKeepTheirKeys`,
  `IssueHistory.StrangersKeepTheirVotes`).
- `set_query_key` with a version that does not parse fails after it has written the query string
  (`UrlState.BadVersionIsWritten`, and exactly when over whole runs in `UrlState.AgreementOverRuns`).
- One `sync` may leave a file that no network accounts for, when a network bears the name of another network's
  file (`Reconciled.DisplacedNetworkLeavesAFile`; exactly when in `SyncForecast.SyncReconcilesExactly`). Repeating
  `sync` repairs it (`Reconciled.RepeatedSyncReconciles`).
- Without an entry for an ancestor the tree shows the details of a file for a folder
  (`OwnEntries.MissingAncestor`; exactly when in `OwnEntries.OwnEntriesExactly`).
- A folder row loses the bytes of large files (`ListCommand.LargeFileIsLost`; exactly when in
  `ListCommand.ShownSizesAreConserved`).
- A folder row carries the newest creation time; the comment in the source asks for the oldest, the code compares the
  other way round (`ListCommand.NewerDateIsShown`; exactly when in `ListCommand.OldestCreationExactly`).
- Only payloads are compared before an answer is forwarded, so the header depends on who gave which answer
  (`Aggregator.HeaderDependsOnWhoAnswered`; exactly when in `Aggregator.WholeMessageExactly`).

## Model

| member | source | states |
|---|---|---|
| `Flagging.FewerThanAFifthFlagged` | sn_fault_detection/src/detection.rs:196-257 | in every state strictly fewer than a fifth of a non-empty group is flagged; nobody of five or fewer, at most one of seven, never more than a third |
| `Statistics.FewerThanAFifthExceed` | sn_fault_detection/src/detection.rs:231-257 | of any non-empty list of non-negative scores strictly fewer than a fifth reach three rounded-up deviations above the floored mean |
| `Statistics.RootCeilingIsLeast` | sn_fault_detection/src/detection.rs:233-244 | the rounded-up deviation is the least natural number from one up whose square reaches the variance |
| `LoneOffender.LoneVariance` | sn_fault_detection/src/lib.rs:249-277 | if all but one of n scores are zero, the variance is n - 1 times the squared mean |
| `LoneOffender.LoneFlaggedFromEleven` | sn_fault_detection/src/detection.rs:231-257 | from eleven nodes on a lone score of 46 or more reaches the threshold, for every half-integer score |
| `LoneOffender.FortyFiveAndAHalfNotFlagged` | sn_fault_detection/src/detection.rs:231-257 | 46 cannot be lowered: among eleven nodes a lone score of 45.5 does not reach it |
| `LoneOffender.TenNodesFlagByRemainder` | sn_fault_detection/src/detection.rs:231-257 | among ten nodes a lone score of h halves reaches the threshold if and only if h is positive and h modulo 20 is one of 0, 6, 12, 13, 18 and 19 |
| `LoneOffender.NineNeverFlag` | sn_fault_detection/src/detection.rs:231-257 | among nine nodes or fewer a lone score of five a node or more never reaches the threshold |
| `LoneOffender.LoneFlaggedExactly` | sn_fault_detection/src/detection.rs:231-257 | a lone score of 46 or more reaches the threshold if and only if there are eleven nodes or more, or ten and one of those remainders |
| `SmallGroups.Samuelson` | sn_fault_detection/src/lib.rs:249-277 | the squared distance of a score from the mean is at most n - 1 times the variance |
| `SmallGroups.FlaggedAreNearTheMean` | sn_fault_detection/src/detection.rs:231-257 | of at most seven scores one that reaches the threshold is less than 2.5 above the mean |
| `SmallGroups.LoneNeverFlaggedAmongSeven` | sn_fault_detection/src/detection.rs:231-257 | among at most seven nodes a lone score never reaches the threshold, however high |
| `SmallGroups.ThreeIsFlaggedAmongEight` | sn_fault_detection/src/detection.rs:231-257 | seven cannot be raised: among eight nodes a lone score of three reaches it |
| `Flagging.LoneOffenderFlagged` | sn_fault_detection/src/detection.rs:183-257 | in a group of at least eleven where one node scores 46 or more and the others zero, exactly that node is flagged |
| `Flagging.LoneOffenderFlaggedExactly` | sn_fault_detection/src/detection.rs:183-257 | the same exactly for every group size from 46 on, for ten nodes at every score, and never for seven nodes or fewer |
| `Flagging.FlaggedEldersAreNearTheMean` | sn_fault_detection/src/detection.rs:183-257 | in every state, of a group of at most seven only a node less than 2.5 above the mean of the final scores is flagged |
| `Flagging.OnlyNodeWithIssuesFlagged` | sn_fault_detection/src/detection.rs:68-257 | from trackers to flags: of eleven or more non-elders, the only one with issues is the one flagged if its issues weigh 46 or more |
| `Flagging.EnoughIssuesAreFlagged` | sn_fault_detection/src/detection.rs:22-27 | how many issues of one kind flag the only offender of eleven or more: 46 operations, 31 communication, 23 knowledge, 23 key generation, 19 vote or 19 probe issues |
| `Flagging.TenNonEldersFlagByRemainder` | sn_fault_detection/src/detection.rs:68-257 | from trackers to flags: among ten non-elders the only offender is flagged if and only if its issues weigh a positive number of halves with one of six remainders, so one more issue can undo its flag |
| `Flagging.FinalScoreIsWeightedIssues` | sn_fault_detection/src/detection.rs:114-133 | if only one node has issues, every score is the issue count itself and all others end at zero |
| `Flagging.TrackMovesScores` | sn_fault_detection/src/detection.rs:114-133 | one more issue raises the node's own score for that type by one exactly if it had as many as the others on average, lowers another's by at most one, not at all if the node is no non-elder, and moves no other type |
| `IssueHistory.QueuesAreSuffixes` | sn_fault_detection/src/lib.rs:109-244 | over every run that tracks members only, each queue is an ascending suffix of the times tracked since the node was last dropped, and all keys are members |
| `IssueHistory.ExpiryKeepsRecentTail` | sn_fault_detection/src/detection.rs:262-281 | expiry keeps exactly the times less than ten minutes ago, which are a suffix |
| `IssueHistory.StepOnQueue` | sn_fault_detection/src/lib.rs:109-244 | what each operation does to the queue of one node and type: push, drop, expire, pop the oldest, or nothing |
| `IssueHistory.ElderVotesNeverExpire` | sn_fault_detection/src/detection.rs:262-281 | without a received vote the queue of elder votes is everything tracked since the last drop, whatever time passes |
| `IssueHistory.TrackingStrangersLeaks` | sn_fault_detection/src/lib.rs:109-138 | tracking keeps the keys among the members if and only if the node is one |
| `IssueHistory.KeyIsDroppedExactly` | sn_fault_detection/src/lib.rs:218-244 | a key leaves a tracker in a step if and only if the step changes the members and the node is one that leaves |
| `IssueHistory.StrangersKeepTheirKeys` | sn_fault_detection/src/lib.rs:109-244 | over every run in which a node that is no member does not become one, its keys stay in all trackers |
| `IssueHistory.StrangersKeepTheirVotes` | sn_fault_detection/src/detection.rs:262-281 | over every such run without a received vote its queue of vote issues is that of the start and all tracked since |
| `Ranking.Rank` | sn_fault_detection/src/detection.rs:288-318 | all flagged nodes, each once, by falling score and by name among equals |
| `Scores.AverageExactly` | sn_fault_detection/src/detection.rs:114-133 | the average is the sum of the issues of the set of other non-elders divided by their number, rounded down; one if there are none |
| `Scores.ScoreExactly` | sn_fault_detection/src/detection.rs:68-133 | the score is the number of issues less that average, never below zero |
| `Scores.FinalScoreExactly` | sn_fault_detection/src/detection.rs:22-27 | twice the final score is 2, 3, 4, 4, 5 and 5 times the scores for operations, communication, knowledge, key generation, votes and probes |
| `Scores.FaultyInOrder` | sn_fault_detection/src/detection.rs:288-318 | the ranked list of a group has exactly the flagged nodes, by falling truncated final score and by name among equals |
| `FaultDetection.FaultDetection.constructor` | sn_fault_detection/src/lib.rs:89-104 | a new detector has the given members and empty trackers |
| `FaultDetection.FaultDetection.TrackIssue` | sn_fault_detection/src/lib.rs:109-138 | the time is pushed to the queue of that node and type and nothing else changes |
| `FaultDetection.FaultDetection.DkgAckFulfilled` | sn_fault_detection/src/lib.rs:141-154 | the oldest key generation issue of the node goes, if there is one |
| `FaultDetection.FaultDetection.ElderVoteReceived` | sn_fault_detection/src/lib.rs:157-173 | the oldest vote issue of the node goes, if there is one |
| `FaultDetection.FaultDetection.AeUpdateMsgReceived` | sn_fault_detection/src/lib.rs:176-192 | the oldest probe issue of the node goes, if there is one |
| `FaultDetection.FaultDetection.AddNewNode` | sn_fault_detection/src/lib.rs:210-213 | the node becomes a non-elder |
| `FaultDetection.FaultDetection.UpdateAndOnlyRetainMembers` | sn_fault_detection/src/lib.rs:218-244 | the new members replace the old, and those that leave lose their queues in all trackers |
| `FaultDetection.FaultDetection.ScoreForType` | sn_fault_detection/src/detection.rs:114-133 | the loops compute the count less the floored average over the set of the other non-elders, one if there are none, and never below zero |
| `FaultDetection.FaultDetection.CalculateScores` | sn_fault_detection/src/detection.rs:68-112 | the score of every node for every issue type |
| `FaultDetection.FaultDetection.GetWeightedScores` | sn_fault_detection/src/detection.rs:183-259 | the loops compute exactly the outliers of the weighted sums, with their truncated scores |
| `FaultDetection.FaultDetection.CleanupTimeSensitiveChecks` | sn_fault_detection/src/detection.rs:262-281 | times older than ten minutes go from all trackers but that of elder votes |
| `FaultDetection.FaultDetection.GetFaultyNodes` | sn_fault_detection/src/detection.rs:288-318 | expires first, then lists exactly the flagged elders and after them exactly the flagged non-elders, each part by falling truncated score and by name among equals |
| `NodeLink.EveryRunTerminates` | sn_comms/src/node_link.rs:69-167 | k sends over m cached connections, in any interleaving with any failures: no connection is tried twice by a send, each opens at most one and tries at most m + k, no run has more than k(5(m + k) + 2) steps, and the cache then holds the connections of the start and those opened since except exactly those on which some send failed |
| `NodeLink.StepKeepsCache` | sn_comms/src/node_link.rs:80-166 | every step of every send keeps the cache to the connections of the start and those opened since, without those on which some send failed |
| `NodeLink.StepKeepsInv` | sn_comms/src/node_link.rs:80-166 | every step of every send keeps what each send knows: distinct tries, none of the failed ones cached again, at most one connection of its own |
| `NodeLink.AttemptsBounded` | sn_comms/src/node_link.rs:80-166 | in every reachable state no send has tried more connections than were cached at the start plus one a send |
| `NodeLink.NoDeadlock` | sn_comms/src/node_link.rs:80-166 | no step is possible if and only if every send has finished |
| `BiStreamSend.Connections.SendWithBiReturnResponse` | sn_comms/src/node_link.rs:69-167 | alone on its cache: an error leaves it empty with every cached connection tried, and is that of connecting or of the stage at which the new connection failed; a success leaves the used one cached and has removed exactly those that failed; the loop is a run of the shared machine |
| `Base32.DecodeEncode` | sn_api/src/safeurl/mod.rs:921-926 | decoding the base-32 text of any bytes gives the bytes, for the alphabet of section 6 of RFC 4648 and for z-base-32 |
| `Base32.EncodeDecode` | sn_api/src/safeurl/mod.rs:423-428 | a base-32 text that decodes is the text of what it decodes to |
| `BitText.EncodedSymbol` | sn_api/src/safeurl/mod.rs:921-926 | each letter of the text stands for the next five bits of the bytes, zero bits past their end, by its place in the written-out alphabet |
| `BitText.SymbolIsLetter` | sn_api/src/safeurl/mod.rs:921-926 | the symbols are those of `ybndrfg8ejkmcpqxot1uwisza345h769` and `abcdefghijklmnopqrstuvwxyz234567` |
| `MediaTypes.PopulateKeepsInverse` | sn_api/src/safeurl/xorurl_media_types.rs:13-46 | adding any list of new, different names at a range of codes above those taken keeps the two maps inverse |
| `MediaTypes.CodesAndNamesAreInverse` | sn_api/src/safeurl/xorurl_media_types.rs:12-161 | the two maps filled from the seven lists are inverse to each other, with 16-bit codes |
| `MediaTypes.CodesArePlaces` | sn_api/src/safeurl/xorurl_media_types.rs:13-46 | in both maps each supported name has the start code of its list plus its place, and there are no other names |
| `MediaTypes.PopulateNames` | sn_api/src/safeurl/xorurl_media_types.rs:13-29 | the loop fills the map from codes to names |
| `MediaTypes.PopulateCodes` | sn_api/src/safeurl/xorurl_media_types.rs:30-46 | the loop fills the map from names to codes |
| `XorLayout.ContentRoundTrip` | sn_api/src/safeurl/mod.rs:134-147 | a content type is read back from its 16-bit code |
| `XorLayout.CodeRoundTrip` | sn_api/src/safeurl/mod.rs:456-473 | a code that is read is the code of what it is read as |
| `XorLayout.MinimalIsTrimmed` | sn_api/src/safeurl/mod.rs:916-919 | the tag bytes are the eight big-endian bytes without the leading zero bytes |
| `XorLayout.ReadOfLayout` | sn_api/src/safeurl/mod.rs:429-509 | a layout has 36 to 44 bytes and is read back, with the type tag as the tag of a register; a spent book is rejected |
| `XorLayout.LayoutIsShortest` | sn_api/src/safeurl/mod.rs:429-509 | laying out what was read reads the same in no more bytes, and gives the same bytes if and only if the tag part has no leading zero byte |
| `NameText.LayoutBytes` | sn_api/src/safeurl/mod.rs:904-919 | the bytes at their places: version 1, the number of the content type in two bytes, the kind of the address, the 32 bytes of the name, and the digits of the tag to the base 256, the first not zero |
| `NameText.ReadLayoutExactly` | sn_api/src/safeurl/mod.rs:429-509 | bytes are read if and only if there are 36 to 44 of them, the version is 1, the content type is known and the kind is 0, 1 or 2; and which name, kind and tag they then give |
| `NameText.TopNameLetters` | sn_api/src/safeurl/mod.rs:921-926 | a top name is `h` or `b` and one letter for every five bits of the layout |
| `NameText.TopNameStarts` | sn_api/src/safeurl/mod.rs:1255-1262 | top names start with `hy` or `ba`, and with `hyr` or `bae` if and only if the content type has a number below 2^14 |
| `NameText.ReadByFirstLetter` | sn_api/src/safeurl/mod.rs:427-428 | a text that starts with `h` is read in z-base-32 and one that starts with `b` in the other alphabet |
| `HostNames.HostsAreSafe` | sn_api/src/safeurl/url_parts.rs:83-109 | a host has only bytes that a host keeps, and a text of such bytes is its own host; others are refused, cut off or escaped |
| `UrlText.SafeLetters` | sn_api/src/safeurl/url_parts.rs:83-109 | which bytes a host keeps, written out |
| `UrlText.HostStands` | sn_api/src/safeurl/url_parts.rs:83-109 | the host stands behind a user and an at sign and before a port, a slash, a question mark or a hash |
| `XorUrlName.NameRoundTrip` | sn_api/src/safeurl/mod.rs:423-509 | a name decodes to the same address, content type, tag and sub names if and only if the address is no spent book, a register has the type tag, the sub names are non-empty, without dots and URL-safe, and the name has at most 255 octets |
| `XorUrlName.NameRoundTripForSupportedTypes` | sn_api/src/safeurl/mod.rs:904-935 | the same for the supported media types, in both base-32 forms |
| `XorUrlName.ParseOfName` | sn_api/src/safeurl/url_parts.rs:111-148 | a name made of non-empty dot-free sub names splits into them and the top name |
| `XorUrlName.CanonicalName` | sn_api/src/safeurl/mod.rs:423-509 | encoding what a host decodes to gives the host back if and only if its tag part has no leading zero byte |
| `Utf8.LossyIsValid` | sn_api/src/safeurl/mod.rs:997-1008 | the text of a pair is well-formed whatever bytes its escapes stand for |
| `Utf8Scalars.ValidExactly` | sn_api/src/safeurl/mod.rs:997-1008 | a byte sequence counts as text if and only if it encodes some Unicode scalar values, as in table 3-6 of the Unicode Standard |
| `Utf8Scalars.BadByteIsReplaced` | sn_api/src/safeurl/mod.rs:997-1008 | a byte that can start nothing becomes U+FFFD and reading goes on behind it |
| `QueryString.PairsOfSerialized` | sn_api/src/safeurl/mod.rs:731-753 | what is serialized as form data, section 5 of the WHATWG URL Standard, is read back as the same pairs in order |
| `UrlText.PairsOfParts` | sn_api/src/safeurl/mod.rs:977-1008 | the pairs are those of the parts between ampersands, up to a hash sign |
| `UrlText.QueryEndIsTrimmed` | sn_api/src/safeurl/mod.rs:977-985 | spaces and control characters at the end of a query string play no part |
| `UrlText.TabsAreDropped` | sn_api/src/safeurl/mod.rs:977-985 | tabs and line ends inside it play none either |
| `UrlText.PairsInOrder` | sn_api/src/safeurl/mod.rs:997-1008 | each part that is not empty gives one pair, in order |
| `UrlText.PairAtFirstEquals` | sn_api/src/safeurl/mod.rs:997-1008 | the first equals sign ends the key; without one the value is empty |
| `UrlText.DecodedEscape` | sn_api/src/safeurl/mod.rs:937-943 | in pairs and in paths a percent sign and two hexadecimal digits stand for their byte |
| `UrlText.HexOfLetter` | sn_api/src/safeurl/mod.rs:937-943 | hexadecimal digits are read in either case |
| `UrlText.DecodedPercent` | sn_api/src/safeurl/mod.rs:997-1008 | in pairs any other percent sign stands for itself |
| `UrlText.DecodedOther` | sn_api/src/safeurl/mod.rs:937-943 | in paths every other byte stands for itself, a plus sign too |
| `UrlText.LastOfTwo` | sn_api/src/safeurl/mod.rs:1457-1462 | for all words, `key=a+c&key=b%20c` has the pairs `a c` and `b c`, and the last value of the key is `b c` |
| `UrlText.FormText` | sn_api/src/safeurl/mod.rs:731-753 | in written pairs letters stay, a space becomes a plus sign and every other byte an escape |
| `UrlText.SerializedText` | sn_api/src/safeurl/mod.rs:731-753 | pairs are written as key, equals sign and value with ampersands between them |
| `UrlState.VersionTextsAreCanonical` | sn_api/src/safeurl/version_hash.rs:36-58 | a text parses to a version if and only if it is the rendering of that version |
| `NameText.VersionLetters` | sn_api/src/safeurl/version_hash.rs:36-41 | the rendering of a version is `h` and 52 letters of z-base-32 for its 256 bits |
| `UrlState.SetInPairs` | sn_api/src/safeurl/mod.rs:730-761 | after a key is set one pair has it, after it is removed none has, and all other pairs stay in order |
| `UrlState.SetInPlace` | sn_api/src/safeurl/mod.rs:730-753 | the value stands where the first pair with the key stood, later ones are gone, and without one it is appended |
| `UrlState.LastOfKey` | sn_api/src/safeurl/mod.rs:1089-1092 | there is a last value if and only if some pair has the key, and it is that of the pair with the key after which no pair has it |
| `UrlState.AgreesExactly` | sn_api/src/safeurl/mod.rs:772-782 | agreement means: no version and no pair with the key `v`, or the version that the last such pair spells |
| `UrlState.AcceptableExactly` | sn_api/src/safeurl/mod.rs:772-782 | a query string is accepted if and only if its last pair with the key `v`, if any, spells a version |
| `UrlState.WrittenPairs` | sn_api/src/safeurl/mod.rs:730-753 | the query string that is written reads back so, through escaping and decoding |
| `UrlState.AgreementStep` | sn_api/src/safeurl/mod.rs:690-782 | for each call, exactly when the content version equals the parse of the last `v` pair afterwards, told from the arguments |
| `UrlState.AgreementOverRuns` | sn_api/src/safeurl/mod.rs:690-782 | the same for every run of calls from every state |
| `UrlState.OkRunsAgree` | sn_api/src/safeurl/mod.rs:690-782 | over every sequence of calls that return Ok the content version is the parse of the last `v` pair |
| `UrlState.BadVersionIsWritten` | sn_api/src/safeurl/mod.rs:750-758 | a `v` that does not parse is written to the query string by the call that fails, and the agreement is lost |
| `UrlState.PathRoundTrip` | sn_api/src/safeurl/mod.rs:662-674 | setting a path and decoding it gives the path with a leading slash, empty for the empty path and the root |
| `UrlState.NormalPathIsNormal` | sn_api/src/safeurl/mod.rs:1036-1068 | without encoding the same function is idempotent, and exactly which paths it leaves alone |
| `UrlText.EncodedPathLetters` | sn_api/src/safeurl/mod.rs:945-948 | an encoded path has only letters, digits, `-._~/` and percent signs, and is the path itself if and only if it had no other byte |
| `UrlText.EscapeIsHex` | sn_api/src/safeurl/mod.rs:945-948 | every other byte becomes a percent sign and two upper-case hexadecimal digits |
| `UrlText.SetPathIsOnePath` | sn_api/src/safeurl/mod.rs:672-674 | after a path is set the stored one has no question mark, hash or space, and starts with a slash unless it is empty |
| `SafeUrl.SafeUrl.SetPathInternal` | sn_api/src/safeurl/mod.rs:1036-1068 | splitting, encoding and joining the parts gives the whole path with a leading slash, encoded where asked |
| `SafeUrl.SafeUrl.SetPath` | sn_api/src/safeurl/mod.rs:672-674 | the path decodes to what was set, with a leading slash |
| `SafeUrl.SafeUrl.PathDecoded` | sn_api/src/safeurl/mod.rs:662-664 | succeeds if and only if the path decodes to well-formed text, and then gives that text |
| `SafeUrl.SafeUrl.SetContentVersionInternal` | sn_api/src/safeurl/mod.rs:1013-1027 | the version is the parse of the text; a text that does not parse changes nothing |
| `SafeUrl.SafeUrl.SetQueryString` | sn_api/src/safeurl/mod.rs:772-782 | Ok if and only if the last pair with the key `v`, if any, spells a version; then the version is that one, or none without such a pair; an error changes nothing |
| `SafeUrl.SafeUrl.SetQueryKey` | sn_api/src/safeurl/mod.rs:730-761 | one value for the key or none, other pairs unchanged in order, and in agreement exactly as the key and the outcome say |
| `SafeUrl.SafeUrl.SetContentVersion` | sn_api/src/safeurl/mod.rs:690-714 | the version is set in both places and they agree, from every state |
| `SafeUrl.QueryKeyLast` | sn_api/src/safeurl/mod.rs:1073-1093 | nothing if and only if no pair has the key; else the decoded value of the pair with the key after which no pair has it |
| `SafeUrl.NewSafeUrl` | sn_api/src/safeurl/mod.rs:352-370 | a new URL is in agreement; fails exactly if the query string has a last `v` that does not parse; a given version wins |
| `Reconciled.RunsKeepNames` | sn_cli/src/operations/config.rs:316-423 | over every run of add, remove, switch and clear each file but the default one holds contacts and is named by their genesis key |
| `Reconciled.SyncReconciles` | sn_cli/src/operations/config.rs:164-277 | if no network bears the name of a file unless its key formats to it, one successful sync makes the formatted keys equal the file names, with a key for every network |
| `SyncForecast.SyncReconcilesExactly` | sn_cli/src/operations/config.rs:164-277 | a successful sync makes keys and files agree if and only if, before the call, each network that bears the name of a file without a key has or will fetch a file that is itself such a file or that of a network which does not bear such a name |
| `SyncForecast.FirstPassForecast` | sn_cli/src/operations/config.rs:179-259 | which files are claimed, which networks go and which file each other one ends with, told from the settings, the directory, the world and the order |
| `SyncForecast.OrderDoesNotMatter` | sn_cli/src/operations/config.rs:164-277 | the order of the networks plays no part unless one is to be read from a file that is not there yet |
| `Reconciled.SyncReconcilesByPass` | sn_cli/src/operations/config.rs:164-277 | after every successful sync each network has a key that names a file of the directory |
| `Reconciled.SyncSucceedsExactly` | sn_cli/src/operations/config.rs:219-254 | sync fails if and only if some remote network without a file has a URL that does not parse |
| `Reconciled.SyncChangesNothingExactly` | sn_cli/src/operations/config.rs:164-277 | sync succeeds and changes nothing if and only if the settings and the directory agree |
| `Reconciled.SecondSyncChangesNothing` | sn_cli/src/operations/config.rs:164-277 | a second sync changes nothing, whatever the URLs and other files give by then |
| `Reconciled.RepeatedSyncReconciles` | sn_cli/src/operations/config.rs:164-277 | however networks are named, with n networks at the start n + 2 successful syncs reach agreement |
| `Reconciled.DisplacedNetworkLeavesAFile` | sn_cli/src/operations/config.rs:261-274 | a network named like an unclaimed file is replaced by it, and the file it fetched is left over |
| `Config.Config.AddNetwork` | sn_cli/src/operations/config.rs:316-345 | Ok if and only if the path or the URL gives contacts; then the file of their key holds them whole, the network is stored with the key, and no other file or network changes; an error changes nothing |
| `Config.Config.RemoveNetwork` | sn_cli/src/operations/config.rs:347-390 | the network, the file of its key and the default file go, and every other network and file stays as it was |
| `Config.Config.Clear` | sn_cli/src/operations/config.rs:392-401 | no networks and no files are left |
| `Config.Config.SwitchToNetwork` | sn_cli/src/operations/config.rs:403-423 | the default contacts are kept whole under their own name, the default file then holds what the file of the network holds, and other files stay as they were; without that file there is no default |
| `Config.Config.VisitNetworks` | sn_cli/src/operations/config.rs:179-256 | the first pass: claims are marked, missing contacts fetched, networks that cannot be fetched listed |
| `Config.Config.AdoptFiles` | sn_cli/src/operations/config.rs:261-274 | the second pass: each unclaimed file with contacts becomes a network |
| `Config.Config.Sync` | sn_cli/src/operations/config.rs:164-277 | both passes; when it succeeds; what every file then holds and where every network comes from; that every network then has its file; and that keys and files agree where names are respected |
| `ContactFiles.AddExactly` | sn_cli/src/operations/config.rs:590-597 | what adding writes: all contacts of the path or the URL, to the file of their key, and nothing else |
| `ContactFiles.RemoveExactly` | sn_cli/src/operations/config.rs:347-390 | which networks and files are left by removing, each as it was |
| `ContactFiles.SwitchExactly` | sn_cli/src/operations/config.rs:501-532 | what every file holds after switching |
| `ContactFiles.SyncFilesExactly` | sn_cli/src/operations/config.rs:219-259 | after a successful sync a file that contacts were brought for holds the last of them, whole, and every other file is as it was |
| `ContactFiles.SyncNetworksExactly` | sn_cli/src/operations/config.rs:179-274 | after a successful sync each unclaimed file is a local network with its key; any other network has its path or URL, its key where that named a file, and the key of the contacts brought for it |
| `ContactFiles.SyncKeepsExactly` | sn_cli/src/operations/config.rs:179-274 | a network is there after a successful sync if and only if it bears the name of an unclaimed file or has or gets a file |
| `Reconciled.AdoptedNames` | sn_cli/src/operations/config.rs:261-274 | in any directory the second pass adds exactly the formatted genesis keys of the contacts in unclaimed files |
| `FileTree.TreeOfPaths` | sn_cli/src/subcommands/files.rs:521-571 | the chains of names are exactly the non-empty prefixes of the inserted paths, each cut at its first empty component; siblings differ; each node holds what belongs to the first path through it |
| `FileTree.PathOfKey` | sn_cli/src/subcommands/files.rs:434-439 | the path of a key is what its slashes separate, without those before and after it |
| `FileTree.KindByType` | sn_cli/src/subcommands/files.rs:536-551 | a node is a directory or a link if and only if the type text says so |
| `FileTree.LookupAfterInsert` | sn_cli/src/subcommands/files.rs:521-571 | an insertion keeps what every node holds and gives the missing nodes on its way the inserted details |
| `FileTree.ChildrenAfterInsert` | sn_cli/src/subcommands/files.rs:80-92 | an insertion leaves every child in its place and adds at most one, behind the others |
| `OwnEntries.OwnEntriesExactly` | sn_cli/src/subcommands/files.rs:433-443 | a normalised map in ascending order gives every node its own entry's type and details if and only if every ancestor has an entry |
| `OwnEntries.CountsAreNodes` | sn_cli/src/subcommands/files.rs:521-571 | directories and files counted are the nodes below the root |
| `OwnEntries.CountsAreEntries` | sn_cli/src/subcommands/files.rs:536-565 | with all ancestors present the counts are those of directories and links to directories, and of all other entries |
| `OwnEntries.CountsAreEntriesExactly` | sn_cli/src/subcommands/files.rs:536-565 | the counts are those of the entries if and only if every ancestor has an entry |
| `OwnEntries.KindsAreNumbers` | sn_cli/src/subcommands/files.rs:536-551 | the counts of entries are the numbers of places whose details say `inode/directory`, or a link to `dir`, and of the others |
| `OwnEntries.MissingAncestor` | sn_cli/src/subcommands/files.rs:536-551 | the one path /a/b makes a node for the folder with the details of the file, and two files are counted |
| `TreeCommand.BuildTree` | sn_cli/src/subcommands/files.rs:521-571 | the recursive insertion with its two counters |
| `TreeCommand.ProcessTree` | sn_cli/src/subcommands/files.rs:425-443 | the loop over the map: the tree, unique siblings, counts that add up to its nodes, and with all ancestors present counts by what the details say |
| `ListCommand.FilterFilesMap` | sn_cli/src/subcommands/files.rs:759-846 | exactly one row for each file and folder below the root; a row of one file shows its size, any other the sum modulo 2^32 of the sizes that 32 bits can read; a row has the greatest modification and creation texts of its files and the other fields of the first; the total counts the files |
| `FileListing.RowOfPath` | sn_cli/src/subcommands/files.rs:795-801 | a file whose path is made of names, with or without a slash before it, is in the row of the first name, with a slash behind it if there are more, and in no other row |
| `FileListing.RowOfKey` | sn_cli/src/subcommands/files.rs:774-801 | the same for every path: the row is that of the first component that is not empty, `.` or `..`, and a folder's if and only if another one follows |
| `FileListing.NoRowOfKey` | sn_cli/src/subcommands/files.rs:770-791 | directories and paths without such a component are in no row and not counted |
| `FileListing.RowFields` | sn_cli/src/subcommands/files.rs:803-840 | a row has the greatest `modified` and `created` texts of its files and all fields but these and `size` from its first file |
| `FileListing.FieldsOfFirst` | sn_cli/src/subcommands/files.rs:805-815 | the first file of a folder gives its fields, with the link of the folder and an empty type |
| `FileListing.CountIsNumber` | sn_cli/src/subcommands/files.rs:791-792 | the total is the number of counted files |
| `ListCommand.ShownSizesAreConserved` | sn_cli/src/subcommands/files.rs:759-846 | the sizes shown add up to the sizes of all counted files, read without limit, if and only if every row of two or more files has fewer than 2^32 bytes; else they add up to less |
| `ListCommand.RowShowsItsSizeExactly` | sn_cli/src/subcommands/files.rs:821-827 | the same for each row |
| `ListCommand.LargeFileIsLost` | sn_cli/src/subcommands/files.rs:821-827 | a folder with a file of 2^32 bytes and one of a single byte shows one byte |
| `ListCommand.OldestCreationExactly` | sn_cli/src/subcommands/files.rs:835-839 | a row carries the oldest creation time of its files if and only if they all have the same |
| `ListCommand.NewerDateIsShown` | sn_cli/src/subcommands/files.rs:835-839 | the folder of a file from 2022 and one from 2023 carries the date of 2023 |
| `ListCommand.MergeInto` | sn_cli/src/subcommands/files.rs:817-840 | merging adds the sizes read in 32 bits and keeps the greater times |
| `Decimal.NumberOfFormat` | sn_cli/src/subcommands/files.rs:821-827 | a size that was written is read back |
| `Decimal.FormatIsPlain` | sn_cli/src/subcommands/files.rs:821-827 | a sum is written in digits without leading zeros |
| `Decimal.WrapIsRemainder` | sn_cli/src/subcommands/files.rs:821-827 | what 32 bits keep of a sum is its remainder modulo 2^32 |
| `Decimal.ReadingExactly` | sn_cli/src/subcommands/files.rs:821-827 | a plus sign before a number does not change it, and a text with anything but digits reads as zero |
| `CommLinks.KeysAreLastTargets` | sn_comms/src/lib.rs:257-316 | after every command sequence the nodes with a link are the targets of the last command that sets any, and those of the start without one |
| `CommLinks.LinkIsKeptExactly` | sn_comms/src/lib.rs:257-274 | a node has the link and cache it had before if and only if it was in every target set since |
| `CommLinks.UnknownAreNoTargets` | sn_comms/src/lib.rs:320-335 | a command is answered by an unknown-node error exactly for the addressed nodes that are not among the last targets |
| `CommLinks.CommLoop.SetLinks` | sn_comms/src/lib.rs:262-274 | the links are exactly those of the targets: old ones kept, new ones for the rest |
| `CommLinks.CommLoop.Process` | sn_comms/src/lib.rs:257-316 | one command: only a change of targets changes links, and the nodes reported are exactly those that a send, a send with response or a send on a stream addresses and that have no link |
| `Aggregator.AdjacentIsPairwise` | sn_comms/src/lib.rs:450-451 | neighbouring payloads are all equal if and only if any two payloads are |
| `Aggregator.ForwardExactly` | sn_comms/src/lib.rs:436-471 | an answer is forwarded if and only if enough nodes succeeded, at least one did and all payloads are equal; otherwise the error response, or nothing if it cannot be rendered or nothing was expected and nothing came |
| `Aggregator.DecisionIsOrderFree` | sn_comms/src/lib.rs:436-471 | the decision and the forwarded payload depend neither on the order of the results nor on which node gave which answer |
| `Aggregator.AnswersOfPermutation` | sn_comms/src/lib.rs:436-448 | results in another order are the same answers, so the row above covers every order |
| `Aggregator.ForwardsTheHighest` | sn_comms/src/lib.rs:461-469 | the forwarded message is that of the highest node that succeeded |
| `Aggregator.WholeMessageExactly` | sn_comms/src/lib.rs:436-471 | the forwarded message is the same whichever node gave which answer if and only if all messages of the nodes that succeeded are equal as a whole |
| `Aggregator.HeaderDependsOnWhoAnswered` | sn_comms/src/lib.rs:503-511 | two nodes with answers of one payload under two headers: exchanging them changes what the client gets |
| `Aggregator.AreBytesEqual` | sn_comms/src/lib.rs:513-523 | the loop is equality |

## Left out

- Rounding of 32-bit floats in the fault detector: the statements are about the formula over real numbers.
- The clock is read once for each expiry, while the source reads it for each queue entry.
- One-way `NodeLink::send`: it need not end, as errors that are not local closes are retried without limit.
- Other users of the connections of a link while sends run, other than the sends of the model.
- Names in bases other than base-32, and spent books, which the decoder rejects; NRS names.
- The parsing of whole URLs by the URL libraries: only hosts, paths and query pairs are modelled, and no IPv6 hosts. Invisible and white-space characters beyond ASCII in a name are escaped in the model, while the source refuses them; neither returns the name.
- SafeUrl.SafeUrl.PathDecoded: an escape without two hexadecimal digits has no result, whatever the library would make of it.
- Failing disks, relative paths, sub-directories of the contacts directory, and the settings file.
- TreeCommand.BuildTree: nodes are values and a changed node is returned, where the source updates owned nodes in place; counters are unbounded.
- ListCommand.FilterFilesMap: a sum that passes 2^32 wraps, as in an optimised build; a build with overflow checks stops there. The link of a folder is an arbitrary function of its name.
- The error events of failed sends, and the sending of the chosen answer on the stream.
- Wallets, registers, multimaps, cryptography, the authenticator, command line handling, printing, downloads, the test network launcher and logs.
