# Freeside in Dafny

This project models the parts of Freeside whose correctness does not show on
reading one function, and proves what they promise:

- the planner that splits the integration test families over shards, the
  accounting of a shard's raw test events, and the aggregator that accepts a
  set of shard reports only when the raw events show full coverage
  (`scripts/daemon-test-shards.py`);
- the canonical texts behind the client's trust in a command result: Go's JSON
  string form, the messages and digest preimages written in it, the netstring
  preimage of a cancellation fence, and the gate that matches a durable record
  with a decision command (`MockContractValidation.swift`,
  `CommandResultTrust.swift`);
- attachment path sets that can coexist as files (`MockTaskAttachments.swift`);
- replays of a pull request's history, the landings that met an open pull
  request, and the conflicts a landing forces, over a cache of merges
  (`scripts/landing-measures.py`);
- the search for test runs outside one's own process tree
  (`scripts/daemon-test-report.py`);
- the wire patch that puts required null members back (`MockServerTransport.swift`).

Each module models one component. `Outcomes`, `Strings`, `Sorting`, `Decimal`, `Utf8`
and `Json` are shared. `Rejected` stands for any exception or refusal of the
source. The operations that the source writes as loops are methods with loop
invariants, tied by their contracts to a predicate or function that does not
mention the loop. The theorems are about those. The modules named `...Laws`, with
`LongestFirst`, `ConflictReport` and parts of others, say once more what those
predicates mean, over the inputs alone and with the names, bounds and members
written out.

Where the code differs from its description, the model follows the code:

- `CommandResultTrust` is described as accepting "the exact durable record".
  `accepts` never compares the record's `answer_route` or its
  `decision_evidence`. `CommandTrust.AnswerRouteWitness` and
  `CommandTrust.EvidenceWitness` give a valid command and an accepted record that
  is not its own, one for each member. `CommandTrust.AcceptedAlike` shows that
  there is no third: two results accepted for one command differ in those two
  members alone. `CommandTrust.ExactRecord` gives the exact condition, which a
  client can check from the record and its command: the answer routes agree, and
  the evidence is well formed and names the command's action surface. What then
  stays open is the item's recommendation, which the command does not carry.
- A repeated command whose typed input is malformed is compared by its raw
  message. So a snooze repeated with another time and the first one's recorded
  text is answered by the first one's record, which the client's gate refuses
  (`CommandTrust.MalformedReplayWitness`). `CommandTrust.ReplayIsTrusted` shows
  that well-formed repeats and the gate agree.
- `goJSONString` is meant to give Go's form of a string. Foundation's search
  matches whole characters, so a `/`, `<`, `>` or `&` that joins a neighbour into
  one character, such as `<` under a combining mark, stays as the encoder wrote
  it. `GoJson.SinglePass` shows that the form is Go's exactly when no such scalar
  is joined, for any notion of joining that keeps printable ASCII scalars and the
  line separators apart, as Unicode Standard Annex 29 does. The text reads back
  in every case (`GoJson.JoinedRoundTrip`).
- The last coverage check of `verify_reports` cannot fail once the earlier
  checks have passed (`VerifierSoundness.CoverageImplied`).
- A cancellation preimage cannot tell a missing campaign from an empty one
  (`Cancellation.EmptyCampaignCollides`). The fence guard refuses the empty one,
  which is what makes the digest name one target.

Some theorems rest on what the inputs are known to be:

- The roots of a package's cases are its discovered families exactly when no
  discovered name holds a slash (`VerifierSoundness.FamiliesExactlyRun`).
  Discovery accepts identifiers only, at line 94 of the script.
- The cache lemmas of `RebaseConflicts` are about commit names without spaces,
  which object ids and their `^1` are: a key joins two names by a space
  (`RebaseConflicts.SpacedKeysCollide`).

## Model

| member | source | states |
|---|---|---|
| Partition.PartitionFamilies | scripts/daemon-test-shards.py:150-164 | accepted exactly when the families are distinct and at least as many as the positive number of shards, and all weights are positive; the bins are the specified ones, which the rows below characterise |
| Partition.AssignmentValid | scripts/daemon-test-shards.py:163-170 | the bins hold every family as often as it was named; the closing validation fails exactly when there are more shards than families |
| Partition.GreedyOpensBins | scripts/daemon-test-shards.py:156-162 | with positive weights, the greedy rule leaves a bin empty only while there are fewer families than bins |
| Partition.AssignmentDisjoint | scripts/daemon-test-shards.py:155-170 | no family is in two bins |
| Partition.AssignmentCanonical | scripts/daemon-test-shards.py:157-162 | every listing order of the families gives the same bins, and weights of absent families do not matter |
| ShardBalance.PlannerFourThirds | scripts/daemon-test-shards.py:156-164 | no bin weighs more than 4/3 - 1/(3 count) times the largest bin of any assignment of the same families to as many shards, where a family weighs its recorded seconds or else one |
| ShardBalance.HeavyFamilyFits | scripts/daemon-test-shards.py:159-162 | when the last family weighs more than a third of what some assignment achieves, the lightest bin takes it within that load |
| ShardBalance.AveragingBound | scripts/daemon-test-shards.py:159-162 | count times a bin's total at its last family is at most the weight of all families plus count - 1 times that family's |
| ShardBalance.PlannerBalanced | scripts/daemon-test-shards.py:159-162 | any two bins differ by at most one largest recorded weight |
| LongestFirst.PlannerInTurn | scripts/daemon-test-shards.py:156-162 | from the heaviest on, and by name among equals, each family is in the first of the bins that are lightest with the families before it |
| LongestFirst.OnlyInTurn | scripts/daemon-test-shards.py:156-164 | no other partition into sorted bins is so arranged |
| LongestFirst.EachFamilyOnce | scripts/daemon-test-shards.py:163-170 | every family is in one bin, once, no bin is empty, and no other name is in any |
| Accounting.Account | scripts/daemon-test-shards.py:173-207 | a stream is accepted exactly when it is a clean run: every event admissible, each case started and finished once, each package completed once, each selected family finished; the report lists, in order, exactly the outcomes in the events |
| StreamLaws.AcceptedIff | scripts/daemon-test-shards.py:177-206 | a stream is accepted exactly when every event names a selected package, a known action that is no failure, a time that is not negative and a test below a selected family; each test run ends once in a pass or a skip, and each end is of a run; and every selected package and family ends |
| StreamLaws.ReportedIff | scripts/daemon-test-shards.py:194-207 | a case or package is reported with an outcome and a time exactly when an event shows it, and the outcome is a pass or a skip |
| StreamLaws.ReportInOrder | scripts/daemon-test-shards.py:207 | cases are listed by package and then by name |
| StreamLaws.StreamReported | scripts/daemon-test-shards.py:173-207 | for any passes, skips and times of the selected families, the stream of running them all is accepted and reported so |
| StreamLaws.StreamReportsOnly | scripts/daemon-test-shards.py:173-207 | and nothing else is reported |
| Accounting.Gather | scripts/daemon-test-shards.py:177-201 | the event loop refuses only streams that are no clean run, and otherwise counts and collects exactly the events |
| Accounting.CompleteIsClean | scripts/daemon-test-shards.py:202-206 | the closing checks hold exactly when the stream is a clean run |
| Accounting.OrderIrrelevant | scripts/daemon-test-shards.py:173-207 | any rearrangement of the events is accepted alike and gives the same report |
| Accounting.ConcatenationClean | scripts/daemon-test-shards.py:262-287 | streams over disjoint packages, one after the other, are clean for the joined selection exactly when each is for its own |
| Accounting.ConcatenationReport | scripts/daemon-test-shards.py:262-287 | the joined stream's report has the cases and packages of both and no others |
| Evidence.GroupByShard | scripts/daemon-test-shards.py:318-323 | reading fails exactly on an invalid attempt number; otherwise every report is filed under its shard |
| Evidence.KeepGreatest | scripts/daemon-test-shards.py:324-328 | each shard keeps its greatest attempt, unless one attempt number repeats |
| Evidence.LatestAttempts | scripts/daemon-test-shards.py:313-332 | the attempts are accepted exactly when numbered validly, without repeats in a shard, and none that counts is from a later attempt; one report a shard is kept, the one of its greatest attempt |
| AttemptLaws.AttemptIff | scripts/daemon-test-shards.py:305-310 | an attempt number is read exactly from an empty member or a decimal numeral without a leading zero |
| AttemptLaws.AttemptValue | scripts/daemon-test-shards.py:305-310 | an empty member is attempt zero, and a further digit adds to ten times the number before it |
| Evidence.GreatestKept | scripts/daemon-test-shards.py:325-328 | a shard's greatest attempt is what counts for it, alone |
| Evidence.EarlierAttemptInert | scripts/daemon-test-shards.py:313-332 | adding an earlier attempt of a shard, anywhere in the list, changes neither what is kept nor the acceptance |
| Evidence.LaterAttemptReplaces | scripts/daemon-test-shards.py:313-332 | adding a shard's later attempt replaces that shard's report and no other |
| Selection.ResolveDarwin | scripts/daemon-test-shards.py:122-131 | the loop accepts exactly when every entry matches one listed package and no two match the same, and then maps those packages to their families |
| Selection.DarwinPackagesMeaning | scripts/daemon-test-shards.py:122-131 | the same of the specified resolution: accepted exactly then, and holding each named package with its entry's families and nothing else |
| Selection.SelectFamilies | scripts/daemon-test-shards.py:134-143 | the loop over the chosen packages gives the specified selection or rejection |
| Selection.DarwinFamiliesExact | scripts/daemon-test-shards.py:134-143 | rejected exactly when a declared family was not discovered; otherwise a package with declared families selects exactly those, in order, and any other package all it discovered |
| Aggregator.VerifyReports | scripts/daemon-test-shards.py:335-418 | verification accepts exactly the evidence that meets the stated conditions, and returns its discoveries, outcomes and identity |
| AcceptanceLaws.AcceptableIff | scripts/daemon-test-shards.py:335-418 | the conditions, spelled out: numbered attempts, the declared shards, this commit's and run's identity, each shard's own share of its package list, clean events behind each report, and agreement between shards |
| AcceptanceLaws.ReturnedIs | scripts/daemon-test-shards.py:400-418 | what is returned: the discoveries of the kept evidence and the outcomes of its reported cases |
| AcceptanceLaws.AcceptedRun | scripts/daemon-test-shards.py:365-371 | accepted evidence records commit, tree, toolchain and platform, and is of the commit and run at hand where these are known |
| AcceptanceLaws.AcceptedTogether | scripts/daemon-test-shards.py:375-379 | accepted evidence agrees on the eight members of the identity |
| AcceptanceLaws.KeptIff | scripts/daemon-test-shards.py:324-328 | the evidence that counts is the one of the greatest number for its shard |
| AcceptanceLaws.DarwinIff | scripts/daemon-test-shards.py:387-390 | a darwin shard ran its share exactly when each entry names one package, no two the same, and of these it ran the declared families or all |
| AcceptanceLaws.ListingIff | scripts/daemon-test-shards.py:359-364 | a package list is taken when its packages are distinct and exactly one ends in "/internal/integration" |
| Aggregator.VerifyKept | scripts/daemon-test-shards.py:343-418 | the same for the evidence of the kept attempts |
| Aggregator.DeclaredCount | scripts/daemon-test-shards.py:343-358 | accepted exactly when a positive count, the rest shard's or else the first report's, declares the kept shards; that count is the result |
| Aggregator.CheckShard | scripts/daemon-test-shards.py:373-406 | a shard passes exactly when it fits the first one: identity, packages, count, its selection, its partition, and a report equal to its re-accounted events |
| Aggregator.Merge | scripts/daemon-test-shards.py:400-410 | a shard joins exactly when its discoveries agree with the collected ones and its cases are new; what is collected is then the union |
| Aggregator.MergeCases | scripts/daemon-test-shards.py:407-410 | cases are added exactly when none is present, each with its outcome |
| Aggregator.AbsorbAll | scripts/daemon-test-shards.py:372-410 | the loop over the shards rejects only evidence that does not verify, and otherwise holds exactly what the shards say |
| Aggregator.CheckCoverage | scripts/daemon-test-shards.py:412-416 | the closing comparison of discovered with covered packages, which holds for all evidence that reaches it |
| VerifierSoundness.VerifiedSound | scripts/daemon-test-shards.py:335-418 | after an accepted verification every discovered family has an outcome, every case belongs to a discovered family, and every outcome is a pass or a skip |
| VerifierSoundness.FamiliesExactlyRun | scripts/daemon-test-shards.py:335-418 | the cases' top-level families are exactly the discovered ones, if and only if no discovered name holds a slash |
| VerifierSoundness.FamilySelected | scripts/daemon-test-shards.py:384-399 | every discovered family is selected by some shard that ran it |
| VerifierSoundness.FamilySelectedOnce | scripts/daemon-test-shards.py:384-410 | no family is selected by two shards |
| VerifierSoundness.OutcomesAreTheEvents | scripts/daemon-test-shards.py:403-410 | the returned outcomes are exactly those in the raw events, each from one shard |
| VerifierSoundness.OutcomeFromEvents | scripts/daemon-test-shards.py:403-406 | a shard's reported outcome is in its raw events, and conversely |
| VerifierSoundness.CoverageImplied | scripts/daemon-test-shards.py:412-416 | verified shards discover exactly the packages their shard set covers, so the closing check cannot fail |
| VerifierSoundness.DarwinSound | scripts/daemon-test-shards.py:351-352 | an accepted darwin verification ran, of each declared package, exactly the declared families, or all discovered ones, each at the root of some case; every outcome is a pass or a skip |
| VerifierSoundness.DarwinNothingElse | scripts/daemon-test-shards.py:387-390 | no returned case lies outside the declared packages |
| VerifierSoundness.RerunInert | scripts/daemon-test-shards.py:342 | evidence of an earlier attempt beside a later one changes neither acceptance nor the evidence used |
| VerifierSoundness.RerunSameVerdict | scripts/daemon-test-shards.py:342-418 | nor the returned inventory and cases |
| VerifierSoundness.VerdictUnique | scripts/daemon-test-shards.py:372-418 | one set of evidence determines the returned inventory and cases |
| ShardRunner.RunShard | scripts/daemon-test-shards.py:215-294 | a shard run is accepted exactly on valid arguments, a nonempty selection and a clean run of it, and leaves the evidence described |
| RunLaws.ArgumentsIff | scripts/daemon-test-shards.py:216-222 | which shards and counts a runner takes, and that three integration shards are assumed without a count |
| RunLaws.SelectedIff | scripts/daemon-test-shards.py:233-247 | when a shard has something to select |
| RunLaws.ProducedShows | scripts/daemon-test-shards.py:215-294 | a run's evidence shows its packages, listing, count, planned bins, share and clean events |
| ShardRunner.Select | scripts/daemon-test-shards.py:233-247 | the shard's selection and saved bins are the specified ones |
| ShardRunner.SelectionsDisjoint | scripts/daemon-test-shards.py:233-247 | different shards of one plan select no common family |
| ShardRunner.CasesDisjoint | scripts/daemon-test-shards.py:188-198 | clean runs of different shards share no case, since every case stays below a selected root |
| ShardRunner.RunsVerify | scripts/daemon-test-shards.py:215-418 | when all shards of a set saw one inventory, weights and count and each ran its selection cleanly, verification accepts them |
| RunLaws.CleanRunsAccepted | scripts/daemon-test-shards.py:215-418 | the same with the shards, identities and attempts spelled out |
| GoJson.SinglePass | app/Sources/FreesideAPI/MockContractValidation.swift:1680-1691 | the encoder's output after the six rewrites is Go's one-pass form exactly when no scalar to be rewritten joins a neighbour's escape into one character |
| GoJson.WrittenText | app/Sources/FreesideAPI/MockContractValidation.swift:1680-1691 | in every case the six rewrites are one pass that looks at each scalar and its two neighbours |
| GoJson.JoinedRoundTrip | app/Sources/FreesideAPI/MockContractValidation.swift:1680-1691 | unescaping by section 7 of RFC 8259 returns the string, whatever joins and whatever follows |
| GoJson.JoinedStays | app/Sources/FreesideAPI/MockContractValidation.swift:1680-1691 | a less-than sign joined by a mark is not rewritten to the form Go writes |
| GoJson.ScalarPass | app/Sources/FreesideAPI/MockContractValidation.swift:1680-1691 | where no scalars join, the result is Go's form |
| GoJson.EscapeTable | app/Sources/FreesideAPI/MockContractValidation.swift:1680-1691 | Go's form of each scalar: short escapes, lower-case code units, and the scalar itself otherwise |
| GoJson.RoundTrip | app/Sources/FreesideAPI/MockContractValidation.swift:1680-1691 | and it reads back to the string, whatever follows it |
| GoJson.FoundationRoundTrip | app/Sources/FreesideAPI/CommandResultTrust.swift:138-141 | the same for the encoder's own string form |
| Json.WrittenReads | app/Sources/FreesideAPI/CommandResultTrust.swift:105-165 | compact JSON of texts, numbers, flags, lists and records reads back to the value, whatever follows |
| Messages.AddressalsRead | app/Sources/FreesideAPI/MockContractValidation.swift:1671-1678 | the digested text is the JSON list of the addressals, with members "comment_id" and "response" |
| Messages.AddressalsDetermined | app/Sources/FreesideAPI/MockContractValidation.swift:1671-1678 | equal texts are of equal lists |
| Messages.ManifestReads | app/Sources/FreesideAPI/MockContractValidation.swift:1663-1667 | the digested text is the JSON record of version 1, the name and the egress profile |
| Messages.FindingRoutesRead | app/Sources/FreesideAPI/CommandResultTrust.swift:154-165 | the message is the JSON list of the stored routes, with members "finding_id", "route" and, where there is one, "reason" |
| Messages.RoutesDetermined | app/Sources/FreesideAPI/CommandResultTrust.swift:154-165 | equal messages are of equal stored routes |
| DecisionLaws.CanonicalIs | app/Sources/FreesideAPI/CommandResultTrust.swift:157-158 | the stored routes are the chosen ones with trimmed reasons, in the order of their findings |
| DecisionLaws.SendableIff | app/Sources/FreesideAPI/CommandResultTrust.swift:176-179 | a reason can be sent exactly when 1 to 2048 bytes are left between the spaces at its ends |
| DecisionLaws.TrimUnique | app/Sources/FreesideAPI/CommandResultTrust.swift:158 | trimming leaves the one text with spaces cut at both ends and none there |
| Messages.CanonicalRoutesUnordered | app/Sources/FreesideAPI/CommandResultTrust.swift:157 | when no finding repeats, the order of the routes does not matter |
| Cancellation.WriteTarget | app/Sources/FreesideAPI/MockContractValidation.swift:16-23 | the loop writes the netstrings of the fence's fields |
| Cancellation.NetstringsRead | app/Sources/FreesideAPI/MockContractValidation.swift:22 | netstrings over UTF-8 byte counts read back to their fields |
| Cancellation.NetstringIs | app/Sources/FreesideAPI/MockContractValidation.swift:22 | a netstring is the number of UTF-8 bytes, a colon and the field |
| Cancellation.TargetIs | app/Sources/FreesideAPI/MockContractValidation.swift:16-21 | the fields are the version, the epoch, the target's members, the number of runs, and each run with its campaign |
| Utf8.CharReads | app/Sources/FreesideAPI/MockContractValidation.swift:22 | the bytes of a scalar, by RFC 3629, read back to it |
| Utf8.LengthIsBytes | app/Sources/FreesideAPI/MockContractValidation.swift:22 | the length of a text is the number of its bytes |
| Cancellation.PreimageIdentity | app/Sources/FreesideAPI/MockContractValidation.swift:16-23 | two preimages are equal exactly when epoch, task, project, ordinal and runs are, a missing campaign counting as an empty one |
| Cancellation.OneDigestOneTarget | app/Sources/FreesideAPI/MockContractValidation.swift:25-32 | accepted fences of one digest have one epoch and one target, unless the hash itself collides |
| Cancellation.FenceIff | app/Sources/FreesideAPI/MockContractValidation.swift:26-32 | when a fence passes its opening guard |
| Cancellation.EmptyCampaignCollides | app/Sources/FreesideAPI/MockContractValidation.swift:21-28 | without the guard a missing and an empty campaign share a preimage |
| Decisions.RevisionReads | app/Sources/FreesideAPI/CommandResultTrust.swift:115-124 | the recorded text of a valid proposal revision is the JSON record of its intent, cost and scope |
| Decisions.AlternativesRead | app/Sources/FreesideAPI/CommandResultTrust.swift:136-141 | the recorded alternatives are the JSON list of the choices sorted by finding |
| DecisionLaws.ResolvesRecorded | app/Sources/FreesideAPI/CommandResultTrust.swift:125-132 | for a valid closure revision the text is {"resolves":true} exactly when it resolves, and {"resolves":false} exactly when it does not |
| DecisionLaws.InputRecorded | app/Sources/FreesideAPI/CommandResultTrust.swift:105-148 | what each other action records of its valid input |
| DecisionLaws.InputIff | app/Sources/FreesideAPI/MockContractValidation.swift:1306-1459 | input is valid exactly when each of the seven typed members is there for its own action alone, text for the five speaking actions alone, attachments for discussions alone, and all are within bounds |
| DecisionLaws.StructureIff | app/Sources/FreesideAPI/MockContractValidation.swift:1218-1247 | when the members common to all decisions are valid |
| Decisions.MessageIsInput | app/Sources/FreesideAPI/CommandResultTrust.swift:105-148 | for valid commands of one action, the recorded messages are equal exactly when the canonical inputs are |
| CommandTrust.SortedDigestsCanonical | app/Sources/FreesideAPI/CommandResultTrust.swift:22 | the sorted distinct digests are equal exactly when the sets are |
| CommandTrust.DigestsAscend | app/Sources/FreesideAPI/CommandResultTrust.swift:22 | the digests are listed once each in ascending order |
| CommandTrust.OneRecordOneDecision | app/Sources/FreesideAPI/CommandResultTrust.swift:7-25 | a record trusted for one valid decision command is trusted for another exactly when they make the same decision |
| CommandTrust.AcceptedAlike | app/Sources/FreesideAPI/CommandResultTrust.swift:11-25 | results accepted for one command agree in every member of the record but the answer route and the evidence, and anything differing only there is accepted too |
| CommandTrust.ExactRecord | app/Sources/FreesideAPI/CommandResultTrust.swift:3-25 | an accepted record is one the command can have left, if and only if the answer routes agree and the evidence is well formed and names the command's action surface |
| CommandTrust.StampedIff | app/Sources/FreesideAPI/MockServer.swift:1365-1397 | evidence is what some recommendation stamps on a command exactly when it is well formed and names its surface |
| CommandTrust.DurableUpToRecommendation | app/Sources/FreesideAPI/MockServer.swift:2134-2156 | two records a command can have left differ in the recommendation alone |
| CommandTrust.AnswerRouteWitness | app/Sources/FreesideAPI/CommandResultTrust.swift:3-25 | a valid answer that is matched by the record of the other answer route |
| CommandTrust.EvidenceWitness | app/Sources/FreesideAPI/CommandResultTrust.swift:3-25 | a valid decision that is matched by a record of another action surface, with the same answer route |
| CommandTrust.ReplayIsTrusted | app/Sources/FreesideAPI/MockServer.swift:1627-1638 | a well-formed repeat is answered by the earlier record exactly when the two make one decision, and exactly then the gate accepts the answer |
| CommandTrust.MalformedReplay | app/Sources/FreesideAPI/MockServer.swift:2929-2941 | the answer to any repeat is accepted exactly when its input is well formed or its raw message is what it would record |
| CommandTrust.MalformedReplayWitness | app/Sources/FreesideAPI/MockServer.swift:2929-2941 | a malformed snooze that is answered by a record the gate refuses |
| Attachments.ConflictFreeIsATree | app/Sources/FreesideAPI/MockTaskAttachments.swift:45-52 | names do not conflict exactly when creating them as files, in any order, succeeds; the files of the tree are then exactly the names |
| Attachments.ConflictIsRelation | app/Sources/FreesideAPI/MockTaskAttachments.swift:45-52 | names conflict exactly when the path of one is a prefix of another's |
| Attachments.CutIsPathPrefix | app/Sources/FreesideAPI/MockTaskAttachments.swift:49-50 | a byte prefix ending before a slash, or the whole name, is exactly a prefix of the segment list |
| Attachments.CreateAllIff | app/Sources/FreesideAPI/MockTaskAttachments.swift:42-52 | creating the files one by one succeeds exactly on paths none of which begins another, and the tree then holds those files and their directories |
| Attachments.ParentValid | app/Sources/FreesideAPI/MockTaskAttachments.swift:30-40 | every directory of a valid name is itself a valid name |
| AttachmentLaws.ValidNameIff | app/Sources/FreesideAPI/MockTaskAttachments.swift:30-40 | a name is valid exactly when it has 1 to 1,024 bytes, no control character, and between its slashes 1 to 255 bytes other than "." and ".." |
| AttachmentLaws.ControlIff | app/Sources/FreesideAPI/MockTaskAttachments.swift:33-35 | the byte scan finds a control character exactly when a scalar of the text is one |
| RebaseConflicts.MergeCache.MergeTree | scripts/landing-measures.py:629-653 | the cached merge is what git says; the cache gains that entry, loses none and still agrees with git |
| ConflictReport.ReportConflicts | scripts/landing-measures.py:683-714 | from any agreeing cache, the report lists in pair order a conflict for each pair whose landing forces files, the first failed merge of each pair that has one, and each pair of unknown head, and counts the others; the cache keeps its entries and agrees |
| ConflictReport.ConflictIff | scripts/landing-measures.py:693-703 | a conflict is reported exactly when some pair's two merges went through and its files, not none, are those that conflict after the landing and not before |
| ConflictReport.TableSays | scripts/landing-measures.py:704-712 | the table lists each file of a conflict, the most listed first, with its number of conflicts and their pull requests in order |
| RebaseConflicts.FileTable | scripts/landing-measures.py:704-712 | the table has one row for each listed file with its number of listings and its pull requests in order, most listed first |
| RebaseConflicts.PrintedUnique | scripts/landing-measures.py:710-712 | the conflicts determine the printed table |
| RebaseConflicts.EveryPairCounted | scripts/landing-measures.py:686-703 | every pair is counted once, as checked, as a gap or as an error |
| RebaseConflicts.ForcedMeaning | scripts/landing-measures.py:701 | the forced files are those that conflict after the landing and not before, each once, in order |
| RebaseConflicts.KeyNamesPair | scripts/landing-measures.py:635 | a cache key names one unordered pair of space-free commits |
| RebaseConflicts.KeyUnordered | scripts/landing-measures.py:635 | the two commits' order does not matter to the key |
| RebaseConflicts.SpacedKeysCollide | scripts/landing-measures.py:635 | names with spaces can share a key |
| History.ReadyThen | scripts/landing-measures.py:387-399 | readiness at a moment is what the latest toggle up to it set, else the state the first toggle implies, else today's |
| HistoryLaws.ReadyIff | scripts/landing-measures.py:387-399 | ready exactly when every return to draft up to the moment is followed by a release; before all toggles, when the first returns it to draft; and without any, as now |
| History.OpenThen | scripts/landing-measures.py:402-415 | open exactly when created, not finally closed, and not closed by the latest closing or reopening up to the moment |
| HistoryLaws.OpenIff | scripts/landing-measures.py:402-415 | open exactly when created, not finally closed, and reopened after every closing up to the moment |
| History.BaseThen | scripts/landing-measures.py:418-428 | the base is the one the latest change up to the moment named, else the first change's previous one, else today's |
| HistoryLaws.BaseIs | scripts/landing-measures.py:418-428 | the base is set by the change that is latest in time and, at one time, in the list; before all changes it is what the first one replaced |
| History.ReplayUnordered | scripts/landing-measures.py:391-399 | readiness and openness depend neither on the listing order nor on other events |
| History.StateSteady | scripts/landing-measures.py:395-399 | between two switches the replayed state does not change |
| History.OpenSteady | scripts/landing-measures.py:402-415 | with no creation, closing or reopening in between, a pull request is open at both moments or neither |
| History.BaseSteady | scripts/landing-measures.py:418-428 | with no base change in between, the base is the same |
| History.StateUnique | scripts/landing-measures.py:395-399 | the switches determine the state at a moment |
| History.LatestMeaning | scripts/landing-measures.py:421-428 | the latest event up to a moment: after every other in time, and in the listing where times are equal |
| History.SortKeepsEnds | scripts/landing-measures.py:421-422 | stable sorting by time keeps which event is first and which is the latest up to any moment |
| History.ApprovedAt | scripts/landing-measures.py:560-577 | the approval is the time of the latest decisive change up to the merge, if that is an approver's label |
| HistoryLaws.ApprovalIff | scripts/landing-measures.py:560-577 | the approval stands since a time exactly when the last decision up to the merge, an addition by a write, maintain or admin user or any removal, is an addition then |
| History.ApprovalNeedsOnly | scripts/landing-measures.py:567-577 | dropping labels by others, other labels and later events never changes the approval |
| LandingPairs.FindPairs | scripts/landing-measures.py:656-680 | the pairs are exactly a landing in the window and another pull request open, ready and on the default branch then, each once, in list order, with that one's head at the landing |
| HistoryLaws.AffectsIff | scripts/landing-measures.py:668-680 | which pairs these are, over the window, the events and the branch |
| LandingPairs.Waiting | scripts/landing-measures.py:675-677 | the three replays decide whether a pull request was open, ready and on the branch |
| LandingPairs.WaitingSteady | scripts/landing-measures.py:387-428 | with no event in between, openness, readiness and base are the same |
| LandingPairs.PairsUnique | scripts/landing-measures.py:668-680 | ordered lists of the same pairs are equal, so the list is determined |
| LandingPairs.LandingsOneWay | scripts/landing-measures.py:668-680 | where merging closes a pull request, no two landings are each other's pair |
| LandingPairs.HeadUnknown | scripts/landing-measures.py:483-490 | the head is unknown exactly when heads are recorded and all of them later |
| HistoryLaws.HeadIs | scripts/landing-measures.py:483-490 | the head is the last recorded one up to the moment, and the final one when none is recorded |
| Percentile.PercentileLaw | scripts/landing-measures.py:751-754 | the percentile is one of the values; at least fraction times their number are up to it and fewer are below it |
| Percentile.NearestRankUnordered | scripts/landing-measures.py:751-754 | the order of the values does not matter |
| ForeignTests.Descendants | scripts/daemon-test-report.py:57-62 | the loop ends, cycles or not, with exactly the pids that have a parent chain to the own one |
| ForeignTests.ForeignTestRuns | scripts/daemon-test-report.py:51-75 | the found pids are the outsiders of the table, in its order |
| ForeignTests.OutsidersMeaning | scripts/daemon-test-report.py:63-75 | the outsiders are exactly the pids, each once, that run tests and have no parent chain to the own one |
| ForeignTests.FoundIff | scripts/daemon-test-report.py:53-75 | a pid is found exactly when its last row is a test run and its parents do not lead to the own pid |
| ForeignTests.TestRunIff | scripts/daemon-test-report.py:65-73 | a test run is a program whose name ends in ".test", or "go" with "test" first after a change of directory |
| ForeignTests.PathNameIs | scripts/daemon-test-report.py:66 | the name of a program is what follows the last slash of its path |
| NullableMembers.InsertMembers | app/Sources/FreesideAPI/MockServerTransport.swift:761-821 | the recursive patch with its loops gives the specified tree |
| NullableMembers.InsertAdds | app/Sources/FreesideAPI/MockServerTransport.swift:761-821 | the result differs from the value only by added null members |
| NullableMembers.InsertGoverned | app/Sources/FreesideAPI/MockServerTransport.swift:771-819 | every required member is present at every place it governs |
| NullableMembers.InsertIdempotent | app/Sources/FreesideAPI/MockServerTransport.swift:761-821 | patching twice is patching once, and the patch changes nothing exactly when nothing was missing |
| NullableMembers.InsertLeast | app/Sources/FreesideAPI/MockServerTransport.swift:761-821 | every complete tree that only adds nulls to the value also adds them to the result: the patch adds as little as possible |
| NullableLaws.ExactMembers | app/Sources/FreesideAPI/MockServerTransport.swift:761-821 | at every place of the tree, a patched object has the members it had and those that its place wants, and no others |
| NullableLaws.OthersKept | app/Sources/FreesideAPI/MockServerTransport.swift:764-770 | at every place that holds no object, a patched tree holds what it held, and arrays keep their length |
| NullableLaws.AddedNull | app/Sources/FreesideAPI/MockServerTransport.swift:792-819 | a member that a patched object gains is null |

## Left out

- Subprocesses and files: Go, git, `gh` and `ps` results and decoded JSON are parameters, such as a package listing, a merge oracle, process rows and evidence records. A merge oracle is taken to be symmetric, which is what the cache key presumes.
- Error texts: one rejection stands for every exception, so which message is raised first is not modelled.
- Floating point: weights, seconds and fractions are exact reals, so the balance bounds say nothing about rounding, and infinities and NaN are malformed values.
- JSON's dynamic types: decoded values have the types their fields should have. A test event may be no object, lack a package or hold a malformed time; other ill-typed evidence is not modelled.
- Accounting.Account: an absent test name or action is the empty string, which the source treats alike.
- Aggregator.VerifyReports: metadata values are strings, the darwin list is a parameter, and reports are kept in the order their shards first appear, which the source's dictionary order also gives.
- SHA-256: a function parameter; where two digests are compared, the one assumption is that those two preimages do not collide.
- Dates: instants are numbers and the ISO 8601 printer is an injective print of whole seconds.
- Swift strings: compared and ordered as sequences of Unicode scalars, where Swift compares by canonical equivalence.
- GoJson.RoundTrip: the texts of `Messages` and `Decisions` search by scalars; a value with a `/`, `<`, `>` or `&` joined to a neighbouring mark is written otherwise by Foundation, as `GoJson.WrittenText` says, and still reads back. Which scalars join is a parameter of the lemmas; the full segmentation tables are not modelled.
- CommandTrust.StampedIff: the revalidation of an action surface before it is stamped, which only refuses commands, is not modelled.
- CommandTrust.OneRecordOneDecision: covers decision commands; the records of the other command kinds are compared member by member with no encoding between.
- Cancellation.OneDigestOneTarget: covers the opening guard of `cancellationBreach`; the acknowledgement part is a list of comparisons.
- Attachments.ParentValid: control characters are recognised in the bytes of valid UTF-8; ill-formed bytes cannot reach the source.
- RebaseConflicts.MergeCache.MergeTree: does not parse git's output; a merge's conflicts or error are the oracle's answer.
- LandingPairs.FindPairs: each pull request's timeline and recorded heads come with it; collecting the recorded heads from workflow runs (`pushes`, `runs_by_pr`) is not modelled.
- Percentile.PercentileLaw: for a nonempty list and a fraction up to one; outside that the source raises an index error.
- ForeignTests.ForeignTestRuns: takes rows already split into pid, parent and command words.
- NullableMembers.InsertMembers: the `last_seen_at` default of device lists, one merge ahead of the patch, is left out.
- `compare`, `metadata`, `gate`, discovery parsing and `main` of the shard script, the per-item and per-snapshot breach checks, landing failures, Markdown rendering, HTTP routing and views: many branches, each settled by reading it.
