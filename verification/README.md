# Verified models of the pool server

A Dafny 4.11 project that models the parts of the mining pool whose correctness is
not obvious from reading them, and proves what they are meant to do. Every file
declares one module; `dafny verify dfyconfig.toml` checks them all.

| file | what it models |
|---|---|
| `BipartiteMatching.dfy` | maximum bipartite matching by augmenting paths, in one pass over the left nodes |
| `Json.dfy`, `JsonReader.dfy` | the lenient JSON reader with its chain of open containers, and the printer |
| `JsonRoundTrip.dfy`, `JsonSpelling.dfy`, `JsonClosure.dfy` | reading what was printed, with or without whitespace; every tree the reader builds prints and reads back |
| `JsonGrammar.dfy`, `JsonRefusals.dfy` | the language of the reader, exactly, and texts that it refuses |
| `JsonLookup.dfy` | keyed lookup in lazily sorted children |
| `StatsWindow.dfy`, `StatsWindowHistory.dfy`, `ShareSums.dfy` | the ring of per-period counters, the unbounded log it stands for, and its 64-bit words |
| `DiffController.dfy`, `DiffControllerLaws.dfy`, `DiffControllerRuns.dfy`, `DiffControllerMeasures.dfy` | the difficulty controller as a value and in place, its laws, runs from its configuration, and what it measures and answers |
| `SetDiffFrames.dfy` | the binary MINING_SET_DIFF messages and their decoder |
| `StratumAgent.dfy`, `AgentDispatcher.dfy` | miners behind an agent connection, and what the agent knows about them |
| `DuplicateShares.dfy` | the bounded duplicate-share checker against an unbounded history |
| `SessionIds.dfy`, `PoolServer.dfy` | the session-id allocator, and the connections that own ids |
| `JobRepository.dfy` | arrival, staleness and expiry of jobs |
| `SqlQueue.dfy` | the SQL worker thread as interleaved steps |
| `Targets.dfy` | difficulties and 256-bit targets |
| `Utf8.dfy` | the UTF-8 encoder and validator on bit vectors |
| `Powers.dfy`, `Arithmetic.dfy`, `OrderedKeys.dfy`, `SetSizes.dfy`, `Options.dfy`, `Runs.dfy`, `Folds.dfy` | shared mathematics, runs of a state machine, and the rule that what every step keeps holds throughout a run |

Classes follow the source: fields updated in place, loops where it loops. Each
operation of a class is proved equal to a function on values, and the laws are
lemmas about those functions.

## Main results

- The matching algorithm returns a matching that no other matching exceeds. A left
  node whose only search failed can never be matched later: it is confined to a set
  of right nodes that successful searches do not touch.
- Reading the printed form of any well-formed object or array, followed by any text,
  gives back the tree; every object or array the reader accepts is of that kind, so
  reading, printing and reading again is the same as reading once. Every object or
  array of RFC 8259, however it is spaced, reads as its tree. A grammar describes
  exactly the texts that are accepted; texts that break off and brackets of the wrong
  kind, at any depth, are refused.
- Once the window is full, retargeting twice at the same moment is retargeting once.
  Every retarget conserves the work (difficulty times share count) in every slot of
  the window, and in every run all difficulties stay powers of two within bounds.
- Rates from a range never make the hash rate level turn back exactly if the range does
  not hold both scaled edges of a level, as when it spans less than a factor of two;
  so in every run of a controller whose estimated rates lie in such a range.
- Decoding a difficulty message gives back every list of sessions in full and in
  order, and in every run of a connection it is known exactly which difficulties the
  agent has right.
- The duplicate checker refuses a share exactly if it was submitted before at one of
  the N highest heights seen.
- The count and the rate of the controller are those of all shares in the window, and
  its answer is the greater of the current difficulty and the minimum; once a minimum
  has been requested for a miner, every job it is given gets at least that in every
  run, until another one is requested.
- No session id is owned twice or freed while unused, in any order of events; ids are
  handed out in steps of the interval, passing over nothing but ids in use.
- The SQL worker attempts the statements once each, in order of arrival, in every
  interleaving; it sleeps on statements only with a notification on its way, and
  once stopped and not asleep it ends after a known number of its own steps.

## Findings

Places where the code does less than a reader might expect, each with the exact
condition.

- A value inserted into the counter ring exactly one turn late is credited to the
  newest period: the test for "too old" is off by one (`InsertRecords` has the exact
  condition, `LateInsertIsMiscredited` a history).
- Before the window is full, retargeting is not always settled by one call
  (`CalcSettles` says when, in terms of the state before the call; `LandedIs` has the
  closed form). With no shares every call halves the difficulty again
  (`LowRateRepeats`), from every configuration (`HalvesAgainAndAgain`). With a long
  share period doubling can end where halving starts, and the difficulty swings for
  ever (`CalcSwings`; `SwingExample` reaches 4, 8, 4, 8 from a new controller). With a
  period of at most 20 seconds only the halving can repeat (`OnlyHalvingRepeats`).
- An agent is told about a session's difficulty only when the exponent changes, so it
  knows the exponent exactly if it assumed it at registration or it has changed since
  (`AlwaysTracked`). A NiceHash session that registers while jobs are open can stay
  unknown for ever, with a difficulty above the one sent for the connection as a whole
  (`NeverTold`), which never rises (`AlwaysBelow`).
- Sessions dropped during a graceful shutdown, or that cannot be set up, keep their
  ids marked as used; clients are refused when connections and leaks fill the space
  (`FullIs`).
- A job that went stale comes back fresh exactly if a delivery that has passed the age
  test is handled while the job is not there (`OverStays`). For a job that was there
  this takes a delivery received no later than its time plus its life, and a cleaning
  no earlier than that (`ComeBackNeeds`); any two such moments will do
  (`JobCanComeBack`).
- `stop` can fail to wake the SQL worker, because the flag is cleared without the lock:
  exactly if it comes between the worker's test and its sleep (`StopIsLostIff`,
  `NeverStuck`; `WakeUpCanBeLost` shows that this moment is reached).
- The UTF-8 encoder takes 21 bits, while its comment says U+10FFFF; from there up to 21
  bits, and for surrogates, what it makes is not UTF-8 (`DecodableIffScalar`,
  `ConvertedIsUtf8Iff`).
- The JSON reader refuses a number at the very end of the text (`NumberAtEnd`), and
  takes whatever character it stops at inside an object for the quote that opens a key
  (`KeyScanned`). `AcceptedIff` has the exact language.
- Freeing a session id that is not in use spoils the count (`FreeSessionId`).

## Model

| member | source | states |
|---|---|---|
| `BipartiteMatching.MaxBipartiteMatchState.constructor` | 3rdparty/gmock-gtest-all.cc:12018-12021 | nothing is linked at the start |
| `BipartiteMatching.MaxBipartiteMatchState.TryAugment` | 3rdparty/gmock-gtest-all.cc:12060-12100 | a failed search leaves all links alone and exhausts what it marked; a successful one relinks only nodes it marked, leaves one stale link (the old partner of its start) and nothing inside a closed set; from a node confined to a closed set it always fails |
| `BipartiteMatching.RelinkFree` | 3rdparty/gmock-gtest-all.cc:12085-12096 | ending a path at a free right node keeps the links mutual |
| `BipartiteMatching.RelinkMoved` | 3rdparty/gmock-gtest-all.cc:12089-12096 | linking to a node whose old partner has moved on repairs its stale link and leaves only the caller's own |
| `BipartiteMatching.ExhaustedStep` | 3rdparty/gmock-gtest-all.cc:12077-12099 | failed searches below one node add up to one exhausted set |
| `BipartiteMatching.SearchedFound` | 3rdparty/gmock-gtest-all.cc:12029-12038 | a later success keeps every earlier match and every earlier closed set |
| `BipartiteMatching.SearchedFailed` | 3rdparty/gmock-gtest-all.cc:12029-12038 | a failure extends the closed set by what the search visited |
| `BipartiteMatching.CertifiedMaximum` | 3rdparty/gmock-gtest-all.cc:12023-12038 | a closed set that confines all unmatched left nodes proves that no matching is larger |
| `BipartiteMatching.PairsAre` | 3rdparty/gmock-gtest-all.cc:12048-12054 | the result lists exactly the linked pairs |
| `BipartiteMatching.PairsOrdered` | 3rdparty/gmock-gtest-all.cc:12048-12054 | in increasing order of left node |
| `BipartiteMatching.SentIsLink` | 3rdparty/gmock-gtest-all.cc:12023-12038 | every edge of the graph is sent to one of the links found |
| `BipartiteMatching.SentInjective` | 3rdparty/gmock-gtest-all.cc:12023-12038 | two edges that share no node are sent to different links |
| `BipartiteMatching.MaxBipartiteMatchState.Compute` | 3rdparty/gmock-gtest-all.cc:12024-12055 | one search per left node decides for good whether it is matched; the result is a maximum matching |
| `BipartiteMatching.FindMaxBipartiteMatching` | 3rdparty/gmock-gtest-all.cc:12122-12124 | a maximum matching: edges of the graph, no node twice, none larger; in increasing order of left node |
| `Json.ScanValue` | 3rdparty/utilities_js.hpp:108-155 | every value but a missing one moves the cursor on |
| `Json.ScanKey` | 3rdparty/utilities_js.hpp:90-105 | a key always moves the cursor on, to the start of its value |
| `JsonReader.FindStop` | 3rdparty/utilities_js.hpp:71-71 | the first character that starts a value or is a bracket, or the end |
| `JsonReader.ParseString` | 3rdparty/utilities_js.hpp:26-41 | the closing quote that is not escaped, or the end of the text |
| `JsonReader.ParseFloat` | 3rdparty/utilities_js.hpp:43-61 | the end of sign, digits, fraction and exponent |
| `JsonReader.ScanDigits` | 3rdparty/utilities_js.hpp:48-48 | the end of a run of digits |
| `JsonReader.ReadNumber` | 3rdparty/utilities_js.hpp:131-154 | the end of the integer part and of the whole number |
| `JsonReader.ReadKey` | 3rdparty/utilities_js.hpp:90-105 | the key and the position of its value, or a failure |
| `JsonReader.ReadValue` | 3rdparty/utilities_js.hpp:108-155 | the value and the position after it, or a failure |
| `JsonReader.ParseText` | 3rdparty/utilities_js.hpp:64-180 | the cursor loop ends and returns what the reading function says, whose language is AcceptedIff |
| `JsonRoundTrip.StringEndPrinted` | 3rdparty/utilities_js.hpp:27-41 | the scanner finds the end of any well-escaped string |
| `JsonRoundTrip.NumberAgrees` | 3rdparty/utilities_js.hpp:44-61 | a number ends at the same place whatever harmless character follows |
| `JsonRoundTrip.LeafPrinted` | 3rdparty/utilities_js.hpp:218-228 | a printed leaf scans to that leaf |
| `JsonRoundTrip.KeyPrinted` | 3rdparty/utilities_js.hpp:201-203 | a printed key scans to that key |
| `JsonRoundTrip.ChildPrinted` | 3rdparty/utilities_js.hpp:157-174 | reading one printed child adds exactly that child to the open container |
| `JsonRoundTrip.ContainerPrinted` | 3rdparty/utilities_js.hpp:205-217 | reading a printed container pushes it, fills it and closes it |
| `JsonRoundTrip.ChildrenPrinted` | 3rdparty/utilities_js.hpp:207-216 | reading a printed list fills the open container with it |
| `JsonRoundTrip.ParsePrinted` | 3rdparty/utilities_js.hpp:64-231 | printing and reading gives back any well-formed object or array, whatever text follows |
| `JsonSpelling.MemberRead` | 3rdparty/utilities_js.hpp:71-174 | reading one member with whitespace anywhere around its tokens adds exactly that member |
| `JsonSpelling.ParseSpelled` | 3rdparty/utilities_js.hpp:64-180 | whitespace between tokens changes nothing, whatever text follows, and that text is left over |
| `JsonSpelling.RfcStringIs` | 3rdparty/utilities_js.hpp:27-41 | every string of RFC 8259 is cut out whole |
| `JsonSpelling.RfcNumberIs` | 3rdparty/utilities_js.hpp:44-61 | every number of RFC 8259 is taken whole |
| `JsonSpelling.ParseRfc` | 3rdparty/utilities_js.hpp:64-180 | every object or array of RFC 8259 reads as its tree |
| `JsonSpelling.PrintIsRfc` | 3rdparty/utilities_js.hpp:200-231 | a tree whose leaves and keys are those of RFC 8259 is printed as a text of RFC 8259 with that tree |
| `JsonGrammar.AcceptedIff` | 3rdparty/utilities_js.hpp:64-180 | a text is accepted with a tree, leaving a rest, exactly if it is written as that tree in the grammar |
| `JsonGrammar.RefusedIff` | 3rdparty/utilities_js.hpp:64-180 | and refused exactly if it is not written so in any way |
| `JsonGrammar.RootRead` | 3rdparty/utilities_js.hpp:64-180 | everything the grammar allows is read, words at the root as well |
| `JsonGrammar.Derives` | 3rdparty/utilities_js.hpp:71-175 | what the reader passes before it closes a container is items of the grammar |
| `JsonRefusals.ParseStable` | 3rdparty/utilities_js.hpp:71-175 | whatever follows an accepted text is left over and changes nothing |
| `JsonRefusals.BrokenOff` | 3rdparty/utilities_js.hpp:176-180 | no proper beginning of a root is accepted |
| `JsonRefusals.SpelledBrokenOff` | 3rdparty/utilities_js.hpp:176-180 | nor one of a properly spaced object or array |
| `JsonRefusals.NumberAtEnd` | 3rdparty/utilities_js.hpp:141-145 | a number at the very end of the text is refused |
| `JsonRoundTrip.KeyScanned` | 3rdparty/utilities_js.hpp:90-105 | a key is read the same whatever character stands in place of its opening quote |
| `JsonRefusals.NothingToClose` | 3rdparty/utilities_js.hpp:74-77 | a closing bracket without an open container is refused |
| `JsonRefusals.SpelledWrongBracket` | 3rdparty/utilities_js.hpp:74-77 | an object or array with the other closing bracket is refused |
| `JsonRefusals.RootMismatchRefused` | 3rdparty/utilities_js.hpp:74-77 | so is a wrong closing bracket at any depth, whatever was read before it |
| `JsonClosure.ScannedLeaf` | 3rdparty/utilities_js.hpp:113-155 | what the scanner cuts out is well-formed, or it is the missing value before a bracket |
| `JsonClosure.ScannedString` | 3rdparty/utilities_js.hpp:27-41 | the text before the closing quote is well escaped |
| `JsonClosure.ScannedNumber` | 3rdparty/utilities_js.hpp:131-154 | the text of a number is one that the scanner takes whole |
| `JsonClosure.ParseFromTracked` | 3rdparty/utilities_js.hpp:71-180 | everything the reader returns is well-formed and carries the flags it computed |
| `JsonClosure.ReparsePrinted` | 3rdparty/utilities_js.hpp:64-231 | reading, printing and reading again is reading once |
| `JsonClosure.AsParsedIsSame` | 3rdparty/utilities_js.hpp:157-174 | the flags set by reading are the only difference to the printed tree |
| `JsonLookup.KeyTrichotomy` | 3rdparty/utilities_js.hpp:302-306 | of two keys exactly one is less, or they are equal |
| `JsonLookup.KeyTransitive` | 3rdparty/utilities_js.hpp:302-306 | the key order is transitive |
| `JsonLookup.KeyLessIs` | 3rdparty/utilities_js.hpp:302-306 | the order is decided at the first difference |
| `JsonLookup.HighBytesFirst` | 3rdparty/utilities_js.hpp:302-306 | characters are signed: bytes above 127 come first |
| `JsonLookup.FillFlag` | 3rdparty/utilities_js.hpp:166-170 | the flag stays up exactly as long as members arrive in order |
| `JsonLookup.InOrderAppend` | 3rdparty/utilities_js.hpp:166-170 | comparing with the last member is enough |
| `JsonLookup.ParsedFlagsSound` | 3rdparty/utilities_js.hpp:108-174 | after every successful parse an object that claims to be sorted is |
| `JsonLookup.SortSorts` | 3rdparty/utilities_js.hpp:311-314 | sorting keeps the members and orders them |
| `JsonLookup.LowerBound` | 3rdparty/utilities_js.hpp:315-321 | splits the children at the first key that is not before the one sought |
| `JsonLookup.MissingKey` | 3rdparty/utilities_js.hpp:322-328 | if the key is not at the lower bound it is nowhere |
| `JsonLookup.FindUnique` | 3rdparty/utilities_js.hpp:322-326 | with distinct keys the member with a key is the one a scan finds |
| `JsonLookup.NodeRef.Lookup` | 3rdparty/utilities_js.hpp:308-329 | finds a member with the key exactly if there is one, agrees with a scan from the front when keys are distinct, and keeps the members |
| `StatsWindows.StatsWindow.constructor` | src/Statistics.inl:28-33 | an empty ring |
| `StatsWindows.StatsWindow.Clear` | src/Statistics.inl:49-54 | an empty ring of the same size |
| `StatsWindows.StatsWindow.MapMultiply` | src/Statistics.inl:35-40 | every slot is scaled |
| `StatsWindows.StatsWindow.MapDivide` | src/Statistics.inl:42-47 | every slot is scaled by the inverse |
| `StatsWindows.StatsWindow.Insert` | src/Statistics.inl:56-75 | the ring after an insert, and whether it was taken |
| `StatsWindows.StatsWindow.Sum` | src/Statistics.inl:77-93 | the sum over the periods up to the given one, at most one turn |
| `StatsWindows.SumScaled` | src/Statistics.inl:35-93 | scaling every slot scales every sum |
| `ShareSums.InsertWords` | src/Statistics.inl:56-75 | inserting into 64-bit words that wrap around gives the words of the insert without bound |
| `ShareSums.ScaleWords` | src/DiffController.cc:50-52 | forgetting all shares works on the words as well |
| `ShareSums.WordRingIs` | src/DiffController.cc:47-59 | after any shares and resets the words are the low words of the ring without bound |
| `ShareSums.SumWordsIs` | src/Statistics.inl:77-93 | a running sum of words that wraps around ends at the low word of the sum without bound |
| `ShareSums.SumIsLowWord` | src/DiffController.cc:125-125 | so the share sum is the low word of the sum without bound |
| `StatsWindowHistory.InsertRecords` | src/Statistics.inl:56-75 | an insert is recorded faithfully exactly if it is not one turn late or adds nothing |
| `StatsWindowHistory.LateInsertIsMiscredited` | src/Statistics.inl:56-75 | a value for period 0 after one for period N ends up in period N |
| `StatsWindowHistory.InsertedSlot` | src/Statistics.inl:62-74 | which period an insert is credited to |
| `StatsWindowHistory.ResetEffect` | src/Statistics.inl:68-71 | exactly the live slots that have expired are zeroed |
| `StatsWindowHistory.PreparedSlot` | src/Statistics.inl:62-71 | just before the value is added every live slot is what the log says |
| `StatsWindowHistory.RunIsRecorded` | src/Statistics.inl:56-75 | after any run of inserts that are not one turn late every live slot is what the log says |
| `StatsWindowHistory.ClockIsOnTime` | src/DiffController.cc:55-59 | a clock that never runs backwards makes every insert on time |
| `StatsWindowHistory.SumIsExact` | src/Statistics.inl:77-93 | a sum that starts within the live periods is the sum over the log |
| `StatsWindowHistory.OverwrittenPeriodIsLost` | src/Statistics.inl:77-93 | for every range that starts earlier some history gives a wrong sum |
| `Powers.FormatDifficulty` | src/Common.cc:36-52 | the least power of two that is at least the request, capped at 2^63 |
| `DiffControl.LowerLevel` | src/DiffController.cc:100-107 | stops at the first level the rate does not drop from |
| `DiffControl.RaiseLevel` | src/DiffController.cc:109-116 | stops at the first level the rate does not rise from |
| `DiffControl.EdgesAre` | src/DiffController.cc:75-91 | the edges double from level to level |
| `DiffControl.MovesIff` | src/DiffController.cc:94-119 | a level is left upwards at 1.5 times its upper edge and downwards at 0.75 times its lower edge, exactly |
| `DiffControl.CoefficientGrows` | src/DiffController.cc:131-133 | one up to level 2, then growing with every level up to six |
| `DiffControl.AdjustStep` | src/DiffController.cc:94-119 | a level moves only past the edges scaled by 0.75 and 1.5 |
| `DiffControl.HeldStep` | src/DiffController.cc:94-119 | a level that has moved is held on its side by every such rate |
| `DiffControl.AlwaysHeld` | src/DiffController.cc:94-119 | the same after any number of such rates |
| `DiffControl.AdjustIdempotent` | src/DiffController.cc:94-119 | adjusting twice by the same rate is adjusting once |
| `DiffControl.NoReturn` | src/DiffController.cc:94-119 | under such rates a level that has risen never falls and one that has fallen never rises |
| `DiffControl.LevelMonotone` | src/DiffController.cc:94-119 | rates from a range that does not hold both scaled edges of a level give a monotone level sequence |
| `DiffControl.LevelMonotoneIff` | src/DiffController.cc:94-119 | and this condition on the range is exact |
| `DiffControl.NarrowIsSteady` | src/DiffController.cc:94-119 | a range of less than a factor of two meets it |
| `DiffControl.FollowsMonotone` | src/DiffController.cc:94-119 | the same when rates come now and then |
| `DiffControl.LevelSwings` | src/DiffController.cc:94-119 | at every edge two rates a factor of two apart swing the level |
| `DiffControl.DiffController.constructor` | src/DiffController.h:60-98 | the configured controller: difficulties within bounds, no share, clock not started |
| `DiffControl.DiffController.Copy` | src/DiffController.h:100-112 | a copy keeps difficulties and level but neither shares nor clock |
| `DiffControl.DiffController.SetMinDiff` | src/DiffController.cc:27-35 | the minimum, brought into bounds |
| `DiffControl.DiffController.SetCurDiff` | src/DiffController.cc:37-45 | the current difficulty, brought into bounds |
| `DiffControl.DiffController.ResetCurDiff` | src/DiffController.cc:47-53 | a requested difficulty forgets the shares |
| `DiffControl.DiffController.AddShare` | src/DiffController.cc:55-59 | one share more in the current period of both windows |
| `DiffControl.DiffController.AdjustHashRateLevel` | src/DiffController.cc:94-119 | the loops compute the adjusted level and never leave the table |
| `DiffControl.DiffController.MinerCoefficient` | src/DiffController.cc:121-134 | the coefficient of the level adjusted by the rate of the window, from the 64-bit share sum |
| `DiffControl.DiffController.AdjustedCoefficient` | src/DiffController.cc:156-159 | with a full window the level moves first and gives the coefficient |
| `DiffControl.DiffController.CountShares` | src/DiffController.cc:146-147 | the shares of the window that ends now |
| `DiffControl.DiffController.Halve` | src/DiffController.cc:187-188 | half the difficulty, twice the counts |
| `DiffControl.DiffController.Double` | src/DiffController.cc:177-178 | twice the difficulty, half the counts |
| `DiffControl.DiffController.ExpectedCount` | src/DiffController.cc:154-162 | the expected number of shares, after the level has moved |
| `DiffControl.DiffController.SpeedUp` | src/DiffController.cc:174-181 | the doubling loop ends, in the state the function gives |
| `DiffControl.DiffController.SlowDown` | src/DiffController.cc:183-192 | the halving loop ends, in the state the function gives, not below the minimum |
| `DiffControl.DiffController.Retarget` | src/DiffController.cc:164-194 | which of the three rules applies |
| `DiffControl.DiffController.CalcCurDiffUnbounded` | src/DiffController.cc:144-195 | the whole retarget |
| `DiffControl.DiffController.CalcCurDiff` | src/DiffController.cc:136-142 | the retarget, answered with the current difficulty or the minimum, whichever is greater |
| `DiffControlLaws.SpeedUpLands` | src/DiffController.cc:174-181 | the share count lands between half and all of what is expected, unless the maximum is reached |
| `DiffControlLaws.SlowDownLands` | src/DiffController.cc:183-192 | it lands between 0.4 and 0.8 of what is expected, unless halving stops |
| `DiffControlLaws.RetargetLandsInBand` | src/DiffController.cc:174-194 | after either loop neither has anything left to do |
| `DiffControlLaws.PrepareSettles` | src/DiffController.cc:148-159 | a second call at the same moment moves neither clock nor level |
| `DiffControlLaws.ExpectedPositive` | src/DiffController.cc:154-162 | at least one share is expected |
| `DiffControlLaws.CalcSettles` | src/DiffController.cc:136-195 | a second retarget at the same moment changes nothing, exactly under a condition on the state before the first: halving calls for no more halving or doubling, and doubling does not end where halving starts |
| `DiffControlLaws.SpeedUpIs` | src/DiffController.cc:176-179 | count and difficulty where the doubling loop ends |
| `DiffControlLaws.LandedIs` | src/DiffController.cc:176-179 | in closed form: the count over, and the difficulty times, two to the least number of doublings at which the loop stops, up to the maximum |
| `DiffControlLaws.RetargetSettles` | src/DiffController.cc:164-194 | the same condition for the three rules alone |
| `DiffControlLaws.OnlyHalvingRepeats` | src/DiffController.cc:144-195 | with a share period of at most 20 seconds the only exception is one more halving |
| `DiffControlLaws.CalcSwings` | src/DiffController.cc:144-195 | otherwise two calls can lead back to the very same state, for every controller in a given range |
| `DiffControlRuns.SwingExample` | src/DiffController.cc:144-195 | 4, 8, 4 is reached from a new controller by five shares in a window of 300 seconds with a period of 100 |
| `DiffControlLaws.CalcFixedPoint` | src/DiffController.cc:136-195 | once the window is full retargeting is a fixed point of difficulty, windows and level |
| `DiffControlLaws.LowRateRepeats` | src/DiffController.cc:164-172 | before that, with no shares, each call halves again |
| `DiffControlRuns.HalvesAgainAndAgain` | src/DiffController.cc:164-172 | from every configuration n calls in one second after a minute without shares halve the difficulty n times |
| `DiffControlRuns.SilentFalls` | src/DiffController.cc:144-195 | a controller that hears of no share never raises its difficulty |
| `DiffControlMeasures.SharesAreMeasured` | src/DiffController.cc:55-59 | whatever shares came in, the count is the number of those in the window and the share sum that of their difficulties |
| `DiffControlMeasures.FullRateIs` | src/DiffController.cc:125-128 | once the window is full the rate is the 64-bit share sum times 2^32 over the window, in units of 10^12 |
| `DiffControlMeasures.RateIsMeasured` | src/DiffController.cc:125-128 | what a rate produces in some seconds is measured as that rate |
| `DiffControlMeasures.ExpectedIs` | src/DiffController.cc:154-162 | at least one share and at most one per second of the window; before the window is full within a half of window over period; afterwards no less than that count |
| `DiffControlMeasures.ClampIs` | src/DiffController.cc:27-45 | a request within bounds is taken as it is, any other as the nearest bound |
| `DiffControlMeasures.ResetForgets` | src/DiffController.cc:47-53 | a reset forgets every share in both windows and leaves the minimum |
| `DiffControlMeasures.ResetIsAnswered` | src/DiffController.cc:47-53 | at first a requested difficulty is the next answer, unless the minimum is greater |
| `DiffControlMeasures.CopyIsAnswered` | src/DiffController.h:100-112 | a copy starts anew with the answer of the original |
| `DiffControlMeasures.FirstAnswer` | src/DiffController.h:60-98 | the first answer of every configured controller is the default, brought into bounds |
| `DiffControlLaws.DoubledKeeps` | src/DiffController.cc:176-179 | doubling never meets the bound or 2^64 and conserves the work |
| `DiffControlLaws.HalvedKeeps` | src/DiffController.cc:185-189 | halving is exact, stays at or above the minimum and conserves the work |
| `DiffControlLaws.SpeedUpKeeps` | src/DiffController.cc:174-181 | the whole doubling loop conserves the work |
| `DiffControlLaws.SlowDownKeeps` | src/DiffController.cc:183-192 | the whole halving loop conserves the work |
| `DiffControlLaws.ClampKeepsPow2` | src/DiffController.cc:27-45 | bounds that are powers of two keep powers of two |
| `DiffControlLaws.CalcKeeps` | src/DiffController.cc:136-195 | every retarget keeps powers of two and conserves the work in every slot |
| `DiffControlLaws.AnswerIs` | src/DiffController.cc:136-142 | the answer is the greater of current difficulty and minimum, and a retarget leaves the minimum |
| `DiffControlLaws.HalvingWouldSpin` | src/DiffController.h:75-82 | with 2^63 allowed the halving loop would turn on the spot |
| `DiffControlLaws.NewControllerIs` | src/DiffController.h:60-98 | a configuration of powers of two satisfies the invariant |
| `DiffControlLaws.RunKeeps` | src/DiffController.cc:27-195 | in every run difficulties stay powers of two within the configured bounds, the level in its table and the configuration as it was |
| `DiffControlLaws.StepFrame` | src/DiffController.cc:27-195 | an operation changes the level only by the rate it estimates, and never the configuration |
| `DiffControlLaws.RunLevelMonotone` | src/DiffController.cc:94-195 | in every run whose estimated rates are steady the level never turns back |
| `SetDiffFrames.WriteIds` | src/StratumMessageDispatcher.cc:407-410 | the ids in little-endian order after an untouched header |
| `SetDiffFrames.WriteFrame` | src/StratumMessageDispatcher.cc:386-410 | one frame with its length, exponent, count and ids |
| `SetDiffFrames.WriteFrames` | src/StratumMessageDispatcher.cc:379-414 | the frames of one exponent announce exactly its list |
| `SetDiffFrames.GetSetDiffCommand` | src/StratumMessageDispatcher.cc:362-416 | split by its length fields and decoded, the message gives back every list in full and in order, exponents going up, in frames of which only full ones (32764 ids) are continued |
| `SetDiffFrames.DecodeEncodedFrame` | src/StratumMessageDispatcher.cc:365-373 | a frame decodes to what it says, whatever follows |
| `SetDiffFrames.DecodeEncoded` | src/StratumMessageDispatcher.cc:365-373 | a sequence of frames decodes to itself |
| `SetDiffFrames.Encode` | src/StratumMessageDispatcher.cc:387-410 | a frame has 7 bytes and two per id, at most 65535 |
| `SetDiffFrames.FrameLayout` | src/StratumMessageDispatcher.cc:387-410 | every byte of a frame: magic, command, length, exponent, count and ids, the low byte first |
| `StratumAgent.Log2` | src/StratumMessageDispatcher.cc:222-223 | the integer part of the logarithm |
| `StratumAgent.Log2OfPow2` | src/StratumMessageDispatcher.cc:222-223 | for a power of two it is exact |
| `StratumAgent.AddLocalJobKeeps` | src/StratumMiner.h:121-126 | the difficulty recorded for a job is exactly two to the exponent |
| `StratumAgent.MinimumIs` | src/StratumMiner.cc:62-69 | which minimum applies: its own, the NiceHash one, or the one it had |
| `StratumAgent.OwnMinimum` | src/StratumMiner.cc:53-69 | a minimum of its own counts, whatever the NiceHash one is |
| `StratumAgent.AlwaysAtLeast` | src/StratumMiner.cc:53-69 | after a request for a minimum, in every run without another one, every job that is given gets at least that |
| `StratumAgent.RequestIsAnswered` | src/StratumMiner.cc:58-69 | at first a requested difficulty is given to the next job, unless a minimum is greater |
| `StratumAgent.FirstJobChanges` | src/StratumMessageDispatcher.cc:221-224 | the first job changes the exponent unless its difficulty is 1 |
| `StratumAgent.StratumMiner.constructor` | src/StratumMiner.h:104-114 | a copy of the default controller, and a difficulty for every job there is; valid on a well-configured server |
| `StratumAgent.NewMinerIs` | src/StratumMiner.h:104-114 | a new miner satisfies the invariant whatever jobs are open |
| `StratumAgent.NewMinerRecords` | src/StratumMiner.h:104-114 | a new miner has a difficulty for exactly the jobs there are |
| `StratumAgent.RemovedJob` | src/StratumMiner.h:128-130 | a removed job has none, and the others keep theirs |
| `StratumAgent.PinnedStays` | src/StratumMiner.h:121-126 | a NiceHash miner whose minimum is no less than the configured maximum gets the maximum for every job |
| `StratumAgent.StratumMiner.SetMinDiff` | src/StratumMiner.cc:53-56 | a minimum of its own overrides the session's |
| `StratumAgent.StratumMiner.ResetCurDiff` | src/StratumMiner.cc:58-60 | passes a requested difficulty on |
| `StratumAgent.StratumMiner.CalcCurDiff` | src/StratumMiner.cc:62-69 | applies the NiceHash minimum and records the answer |
| `StratumAgent.StratumMiner.AddLocalJob` | src/StratumMiner.h:121-126 | recalculates and records the difficulty of the job |
| `StratumAgent.StratumMiner.RemoveLocalJob` | src/StratumMiner.h:128-130 | forgets the difficulty of the job |
| `AgentDispatchers.AgentDispatcher.constructor` | src/StratumMessageDispatcher.cc:158-162 | a connection without miners |
| `AgentDispatchers.AgentDispatcher.RegisterWorker` | src/StratumMessageDispatcher.cc:340-351 | one miner more, unless the id is taken |
| `AgentDispatchers.AgentDispatcher.UnregisterWorker` | src/StratumMessageDispatcher.cc:353-360 | one miner less |
| `AgentDispatchers.AgentDispatcher.HandOut` | src/StratumMessageDispatcher.cc:219-227 | every miner gets the job; the lists hold exactly the sessions whose exponent changed, in order |
| `AgentDispatchers.AgentDispatcher.SetAgentDiff` | src/StratumMessageDispatcher.cc:213-217 | the connection's own difficulty, sent if it has changed |
| `AgentDispatchers.Announce` | src/StratumMessageDispatcher.cc:229-243 | one message for exactly the changed exponents, or none |
| `AgentDispatchers.AgentDispatcher.AddLocalJob` | src/StratumMessageDispatcher.cc:212-244 | the message announces exactly the changed exponents, and there is none if nothing changed |
| `AgentDispatchers.Sent` | src/StratumMessageDispatcher.cc:229-243 | no message exactly if nothing changed, else one that announces every change |
| `AgentDispatchers.AgentDispatcher.RemoveLocalJob` | src/StratumMessageDispatcher.cc:246-250 | every miner forgets the job |
| `AgentDispatchers.Heard` | src/StratumMessageDispatcher.cc:219-243 | after a message the agent knows an exponent exactly if it knew it or it has just changed |
| `AgentDispatchers.Informed` | src/StratumMessageDispatcher.cc:212-244 | and two to that exponent is the difficulty recorded for the new job |
| `AgentDispatchers.HearAllIs` | src/StratumMessageDispatcher.cc:228-243 | a session announced with one exponent ends up with it, the others keep theirs |
| `AgentDispatchers.AlwaysTracked` | src/StratumMessageDispatcher.cc:200-360 | in every run the agent knows an exponent exactly if it assumed it at registration or it has changed since |
| `AgentDispatchers.NeverTold` | src/StratumMessageDispatcher.cc:212-244 | whatever the agent believed, it can stay ignorant of a NiceHash session after any number of jobs, and what it was sent for the connection is less |
| `AgentDispatchers.AlwaysBelow` | src/StratumMessageDispatcher.cc:212-217 | in every run what is sent for the connection as a whole never rises above what it started with |
| `AgentDispatchers.AlwaysSynchronised` | src/StratumMessageDispatcher.cc:200-360 | if every session registers with an exponent the agent assumes, its picture stays right in every run |
| `DuplicateShares.DuplicateShareChecker.constructor` | src/Statistics.h:205-211 | an empty memory for an empty history |
| `DuplicateShares.DuplicateShareChecker.AddGShare` | src/Statistics.h:213-228 | refuses a share exactly if it was submitted before at one of the N highest heights; the memory stays that of the N highest heights, with all their shares |
| `DuplicateShares.DuplicateShareChecker.ClearExcess` | src/Statistics.h:237-242 | keeps exactly the N highest heights |
| `DuplicateShares.RemembersStep` | src/Statistics.h:213-228 | taking in a share and trimming agrees with the longer history |
| `DuplicateShares.RemembersRepeat` | src/Statistics.h:216-219 | a refused share changes nothing |
| `DuplicateShares.TrackedOfTracked` | src/Statistics.h:214-225 | the N highest of the kept heights and a new one are the N highest of all |
| `DuplicateShares.DropMinimum` | src/Statistics.h:237-242 | erasing the lowest of too many heights keeps the N highest |
| `DuplicateShares.NewlyTracked` | src/Statistics.h:237-242 | a height that was dropped is never tracked again |
| `DuplicateShares.RemembersSize` | src/Statistics.h:244-246 | the memory holds N heights, or all while there are fewer |
| `SessionIds.SessionIDManager.constructor` | src/StratumServer.cc:45-53 | no id is in use |
| `SessionIds.SessionIDManager.IfFull` | src/StratumServer.cc:55-67 | full exactly if every index is used |
| `SessionIds.SessionIDManager.SetAllocInterval` | src/StratumServer.cc:69-72 | any 32-bit interval |
| `SessionIds.SessionIDManager.Probe` | src/StratumServer.cc:81-84 | from any position the cursor reaches an unused index, passing over nothing but used ones |
| `SessionIds.SessionIDManager.Take` | src/StratumServer.cc:86-88 | one more live index |
| `SessionIds.UsedSize` | src/StratumServer.cc:61-67 | as many set bits as bits exactly if all are set |
| `SessionIds.SessionIDManager.AllocSessionId` | src/StratumServer.cc:74-93 | fails exactly if every id is live; else the first free index from the cursor on, going up and around, under the server id; then the cursor stands one interval further |
| `SessionIds.AllocInARow` | src/StratumServer.cc:74-93 | a new manager hands out indexes in steps of the interval as long as they differ |
| `SessionIds.AllocSpaced` | src/StratumServer.cc:74-93 | a free index under the cursor is the one that is taken |
| `SessionIds.SessionIDManager.FreeSessionId` | src/StratumServer.cc:95-102 | the count stays right exactly if the id was live |
| `SessionIds.AdvanceIs` | src/StratumServer.cc:91-91 | 32-bit wrap-around does not disturb the cursor |
| `SessionIds.IdParts` | src/StratumServer.h:84-91 | an id can be taken apart and fits in 32 bits |
| `PoolServer.StratumServer.Accept` | src/StratumServer.cc:1161-1234 | a client is accepted exactly if there is an id and its session can be set up; a failed set-up leaks the id |
| `PoolServer.StratumServer.RemoveConnection` | src/StratumServer.cc:1153-1159 | only marks the connection |
| `PoolServer.StratumServer.FirstPass` | src/StratumServer.cc:1116-1127 | grand pools get a clean job first |
| `PoolServer.StratumServer.SecondPass` | src/StratumServer.cc:1129-1146 | serves the others, erases exactly the dead and frees their ids, each of which is live |
| `PoolServer.StratumServer.EraseDead` | src/StratumServer.cc:1132-1136 | frees a live id and removes its connection |
| `PoolServer.StratumServer.EraseFirst` | src/StratumServer.cc:1245-1246 | removes a connection whose id stays marked |
| `PoolServer.StratumServer.Progress` | src/StratumServer.cc:1068-1080 | a session that logs in or changes its chain keeps its id |
| `PoolServer.StratumServer.SendMiningNotifyToAll` | src/StratumServer.cc:1105-1147 | everyone alive on the chain of the job gets it, grand pools first if it is clean, and exactly the living stay |
| `PoolServer.ServedOnce` | src/StratumServer.cc:1105-1147 | the two passes reach every living connection of the chain exactly once |
| `PoolServer.ReceiversAre` | src/StratumServer.cc:1116-1146 | who gets a job: everyone alive on its chain |
| `PoolServer.GrandPoolsFirst` | src/StratumServer.cc:1116-1127 | a clean job goes to grand pools before everyone else |
| `PoolServer.SelectKeepsOrder` | src/StratumServer.cc:1116-1146 | each pass keeps the order of the connections |
| `PoolServer.StratumServer.DisconnectTick` | src/StratumServer.cc:1236-1249 | drops connections up to the first that is logged in; their ids stay marked |
| `PoolServer.StratumServer.CountIs` | src/StratumServer.cc:86-88 | the count is connections plus leaked ids |
| `PoolServer.StratumServer.FullIs` | src/StratumServer.cc:61-67 | no id is left exactly if connections and leaks fill the space |
| `PoolServer.Serve` | src/StratumServer.cc:1105-1249 | in every order of events ids stay distinct, live and counted |
| `JobRepositories.JobRepository.ConsumeStratumJob` | src/StratumServer.cc:292-302 | in the consumer thread: passes a delivery on unless it is too late |
| `JobRepositories.JobRepository.HandleStratumJob` | src/StratumServer.cc:302-312 | later, in the event loop: takes the job in unless it is known |
| `JobRepositories.WithoutIs` | src/StratumServer.cc:302-312 | every delivery is handled once |
| `JobRepositories.JobRepository.MarkAllJobsAsStale` | src/StratumServer.cc:320-327 | marks exactly the jobs up to the height |
| `JobRepositories.MarkingIs` | src/StratumServer.cc:320-327 | exactly the jobs up to the height are stale now that were not before |
| `JobRepositories.StaleNeeds` | src/StratumServer.cc:302-327 | a job goes stale by a height that reaches it or by a new block, and by nothing else |
| `JobRepositories.MarkedStays` | src/StratumServer.cc:320-327 | in every run a marked job is not fresh until it is taken in again |
| `JobRepositories.JobRepository.TryCleanExpiredJobs` | src/StratumServer.cc:358-377 | keeps exactly the jobs that have not expired, and the newest |
| `JobRepositories.LaterExpiresLater` | src/Stratum.h:36-38 | ids in order means times in order |
| `JobRepositories.CleaningIsSafe` | src/StratumServer.cc:358-377 | removes only expired jobs, never the newest; then one is left or none is expired |
| `JobRepositories.OverStays` | src/StratumServer.cc:292-395 | a stale job never counts as fresh again, except when a delivery of it is handled while it is not there |
| `JobRepositories.AlwaysOver` | src/StratumServer.cc:292-395 | the same over whole runs |
| `JobRepositories.AlwaysInTime` | src/StratumServer.cc:292-302 | everything that waits for the event loop was received in time |
| `JobRepositories.Disappears` | src/StratumServer.cc:358-377 | a job disappears only by cleaning, at or after its time plus its life |
| `JobRepositories.ComeBackNeeds` | src/StratumServer.cc:245-377 | a stale job that is fresh again was cleaned away, and then a delivery received no later than its time plus its life was handled |
| `JobRepositories.JobCanComeBack` | src/StratumServer.cc:292-377 | for every receipt up to the time of a job plus its life and every cleaning from there on, some run brings it back fresh |
| `SqlQueue.NextKeeps` | src/MySQLConnection.cc:284-321 | every step keeps attempted, in flight and pending equal to everything added, and never pops an empty queue |
| `SqlQueue.AddKeeps` | src/MySQLConnection.cc:284-289 | a statement is appended once |
| `SqlQueue.WorkKeeps` | src/MySQLConnection.cc:297-317 | every step of the worker keeps the order and pops nothing from an empty queue |
| `SqlQueue.AlwaysInOrder` | src/MySQLConnection.cc:284-344 | the same in every interleaving |
| `SqlQueue.AfterTheEnd` | src/MySQLConnection.cc:311-317 | at exit everything added has been attempted, once and in order; later statements stay queued |
| `SqlQueue.AlwaysAttentive` | src/MySQLConnection.cc:297-301 | in every interleaving the worker goes to sleep only on an empty queue, and sleeps on another only with a notification on its way |
| `SqlQueue.FourSteps` | src/MySQLConnection.cc:297-309 | with something to do, four steps attempt the front of the queue |
| `SqlQueue.EndsAfterStop` | src/MySQLConnection.cc:297-320 | once stopped and neither asleep nor about to sleep, the worker ends after a known number of steps of its own, with every statement attempted unless it had ended before |
| `SqlQueue.WakeUpCanBeLost` | src/MySQLConnection.cc:297-301 | that moment is reached, so the worker can sleep although it was told to stop |
| `SqlQueue.StopIsLostIff` | src/MySQLConnection.cc:338-340 | the first stop can leave the worker asleep for good exactly if it comes between its test and its sleep |
| `SqlQueue.NeverStuck` | src/MySQLConnection.cc:297-340 | in every run without such a stop the worker never sleeps unnoticed |
| `SqlQueue.LoseStop` | src/MySQLConnection.cc:297-340 | such a stop is lost by notifications and steps of the worker alone |
| `SqlQueue.StuckStays` | src/MySQLConnection.cc:338-344 | only another notification or a spurious wake-up ends that |
| `Targets.GenerateDiffToTargetTable` | src/Difficulty.h:51-58 | entry p is the target of difficulty one shifted p times |
| `Targets.ShiftIsDivision` | src/Difficulty.h:51-58 | shifting is dividing by the power of two |
| `Targets.DiffToTarget` | src/Difficulty.h:70-91 | the same target with or without the table, whatever the logarithm was rounded to |
| `Targets.RoundTripIff` | src/Difficulty.h:60-91 | a difficulty comes back exactly if the remainder is smaller than the target |
| `Targets.RoundTrip` | src/Difficulty.h:60-91 | every 64-bit difficulty comes back if the target of difficulty one is at least 2^128 |
| `Targets.RoundTripCanFail` | src/Difficulty.h:60-91 | for a small one it can fail |
| `Utf8.CodePointToUtf8` | 3rdparty/gmock-gtest-all.cc:3260-3286 | the byte pattern of every code point of at most 21 bits, the empty string for zero, a readable message for all others |
| `Utf8.HexRoundTrip` | 3rdparty/gmock-gtest-all.cc:3467-3471 | the number in the message is the code point |
| `Utf8.Fill2` | 3rdparty/gmock-gtest-all.cc:3270-3272 | two bytes and the end |
| `Utf8.Fill3` | 3rdparty/gmock-gtest-all.cc:3274-3277 | three bytes and the end |
| `Utf8.Fill4` | 3rdparty/gmock-gtest-all.cc:3279-3283 | four bytes and the end |
| `Utf8.DecodableIffScalar` | 3rdparty/gmock-gtest-all.cc:3254-3286 | a pattern is UTF-8 exactly if the code point is a scalar value |
| `Utf8.ConvertedIsUtf8Iff` | 3rdparty/gmock-gtest-all.cc:3254-3286 | what becomes of any code points is UTF-8 exactly if there is no surrogate and nothing from U+110000 up to 21 bits |
| `Utf8.DecodeEncoded` | 3rdparty/gmock-gtest-all.cc:3222-3286 | decoding the encoding of scalar values gives them back |
| `Utf8.EncodeDecoded` | 3rdparty/gmock-gtest-all.cc:11099-11134 | everything that can be decoded is the encoding of scalar values |
| `Utf8.CharLengthIs` | 3rdparty/gmock-gtest-all.cc:11107-11130 | the validator's byte ranges accept exactly the characters that decode |
| `Utf8.Check2` | 3rdparty/gmock-gtest-all.cc:11110-11113 | the range of lead bytes excludes overlong forms |
| `Utf8.Check3` | 3rdparty/gmock-gtest-all.cc:11114-11120 | the ranges exclude overlong forms and surrogates |
| `Utf8.Check4` | 3rdparty/gmock-gtest-all.cc:11121-11128 | the ranges exclude overlong forms and what is above U+10FFFF |
| `Utf8.IsValidUTF8` | 3rdparty/gmock-gtest-all.cc:11101-11134 | accepts exactly the encodings of sequences of scalar values; without NUL, exactly what the encoder makes of nonzero ones |
| `Utf8.WideStringToUtf8` | 3rdparty/gmock-gtest-all.cc:3324-3345 | what becomes of the code points up to the first NUL, surrogate pairs joined |
| `Utf8.WideIsSame` | 3rdparty/gmock-gtest-all.cc:3295-3309 | UTF-16 and UTF-32 of a text read as the same code points |
| `Utf8.LoneUnits` | 3rdparty/gmock-gtest-all.cc:3334-3340 | units without a partner are taken one by one |
| `Utf8.StopsAtNul` | 3rdparty/gmock-gtest-all.cc:3332-3333 | everything from the first NUL on is left out |
| `Utf8.PairOf` | 3rdparty/gmock-gtest-all.cc:3300-3309 | a surrogate pair reads back as its code point |
| `Utf8.WideRoundTrip` | 3rdparty/gmock-gtest-all.cc:3295-3345 | from UTF-16 to UTF-8 and back nothing is lost |

## Left out

- StatsWindows.StatsWindow.MapMultiply: share counts are real numbers; the rounding of
  `double` is not modelled, here or elsewhere in the controller.
- StatsWindows.StatsWindow.Insert: periods are not negative, as they are Unix times.
- DiffControl.DiffController.CalcCurDiff: the clock is a parameter and later than one
  window after time zero; an earlier one would index the ring with negative numbers.
- AgentDispatchers.AgentDispatcher.RegisterWorker: the miners of a dispatcher, each
  owned by one pointer in the source, are values in a map, so aliasing between them
  is not modelled; the worker accounting of the session is not modelled either.
- Json.ScanValue: positions are those of a text followed by NUL, as the callers pass
  it. Nodes form a tree of values: pointers into vectors that have grown, leftover
  slices in reused nodes, undefined nodes and number conversions are not modelled.
- JsonLookup.SortSorts: the library sort is represented by insertion; among equal keys
  only what holds for any order is stated.
- JobRepositories.JobRepository.HandleStratumJob: the chain-specific handling of a new
  job is reduced to inserting it and, for a new block, marking the others stale.
- PoolServer.StratumServer.Accept: sockets, TLS and the contents of a session are
  reduced to whether the set-up succeeds.
- Targets.DiffToTarget: the compact encoding of the target of difficulty one, and
  floating-point difficulties, are not modelled.
- Bit masks and shifts of session ids are remainders and products, which is the same
  for masks of the form 2^n - 1.
- Fairness: that a notification on its way arrives, and that the SQL worker goes on, is
  not claimed.
- Kafka, Redis, ZooKeeper, MySQL connections, libevent, TLS, HTTP, configuration,
  management reports, statistics pages and logging: plumbing around libraries.
- Chain-specific jobs, miners and share verification.
- The rest of the vendored test framework, which has nothing to do with the pool.
