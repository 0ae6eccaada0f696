# GenieACS: the declarative device engine

GenieACS manages TR-069 devices. A session keeps what is known of a device, runs scripts that declare
what they want to read and to set, and talks to the device until the declarations are met. This project
models the state that such a session keeps and the rules that move it, and proves what the rest of the
system relies on.

| file | what it is about |
|---|---|
| `VersionedMap.dfy` | the store with a history per key: snapshot reads, collapse, diff, size, serial form |
| `Scripts.dfy`, `Session.dfy`, `SessionWrites.dfy`, `SessionHistory.dfy`, `SessionContext.dfy` | scripts that are run again from the start after every commit, the stack of levels, the counters, and an observer that tells from what happened what comes next; first as steps on values, then as a class whose methods are proved to take those steps |
| `Provisions.dfy`, `ProvisionResults.dfy`, `ProvisionLoops.dfy`, `Faults.dfy`, `RecordFault.dfy` | which channel runs which provisions, as 32-bit masks over a list, and what remains of them after a fault |
| `Path.dfy`, `Json.dfy`, `PathReader.dfy`, `PathRoundTrip.dfy`, `PathInjective.dfy`, `PathCache.dfy` | paths with nested aliases: printing, parsing, the index loops of the parser, and the cache keyed by text |
| `PathSpelling.dfy`, `PathLanguage.dfy`, `PathBare.dfy`, `PathOrder.dfy` | the language of paths: every way to write one, that nothing else is accepted, values without quotes, and the order of pairs |
| `PathSet.dfy` | the three-way index over paths |
| `Device.dfy`, `DeviceMerge.dfy`, `DeviceMarks.dfy`, `DeviceClears.dfy`, `DeviceCoherence.dfy`, `DeviceData.dfy` | `set`, `clear` and trackers: no missed invalidation, what exactly is merged, dropped, marked and returned, coherent attributes, and the methods as they run |
| `Unpack.dfy`, `Selection.dfy`, `AliasDeclarations.dfy` | how aliases select parameters |
| `DcSet.dfy`, `DcSetValues.dfy`, `DcSetBuild.dfy` | the impossible combinations of database comparisons, and whether only real ones are left |
| `Lock.dfy`, `SessionLock.dfy` | the lock document of a device, and a session that keeps its lease |
| `Instances.dfy` | how many instances are created and deleted |
| `Query.dfy`, `QueryMeanings.dfy` | the enumeration of query alternatives, and what they mean |
| `Entities.dfy`, `Xml.dfy`, `XmlMarkup.dfy`, `XmlRoundTrip.dfy`, `XmlNames.dfy` | XML entities, and the parser with its state packed into bytes: what it reads, skips and refuses |
| `Options.dfy`, `Sequences.dfy`, `Word32.dfy` | shared: optional values, lists without duplicates, 32-bit words |

Code that changes things step by step is modelled by classes and methods with the source's loops, each
proved against a function on values; what the source promises is proved about those functions.
`dafny verify dfyconfig.toml` checks everything.

Where the code does not do what it is for, the model keeps the code and states exactly when it does:

- a key whose history changes at revision 31 or later does not survive serialisation; a change at 31 itself keeps the decoding loop from ending (`RoundTripsExactlyBelow31`);
- a collapse that drops a key leaves every size too small (`CollapseLosesSize`);
- with more than 31 provisions the masks can mix up channels (`AddsOnlyExactly`, `ThirtyOneIsTheBound`);
- an alias value that ends with a backslash is printed in a form that does not parse (`ParseUndoesPrint`);
- a bare alias value that begins like a name is read on as part of the path if it is right behind a path that ends with an alias (`BareParsesExactly`), and there any character passes for a dot (`AnythingSeparates`);
- a slice that starts behind a path's last segment puts an empty path into the cache under the whole path's text (`SliceTextIsExact`);
- `appendProvisions` does not keep the order of a list with repetitions (`OrderIsKeptExactly`);
- a clear looks for paths of up to 99 segments, so that a change of a longer path can go unnoticed (`NoMissedInvalidation`);
- a clear of `value` alone leaves an object without its empty value (`ClearKeepsCoherenceExactly`);
- the don't-care set leaves in the region between two neighbouring values, such as false and true (`OnlyRealRemainExactly`);
- in a path of more than 32 segments a wildcard also marks the segment 32 places away, and `find` misjudges it (`FindsWhatMatchesExactly`);
- a queued instance with exactly the wanted keys is counted twice, so that fewer than the minimum may be created (`PlanMeetsLimits`);
- a lock call that fails for clock skew leaves the lock taken, by nobody, until it has expired (`SkewErrorLeavesLock`);
- an XML declaration other than a comment or a processing instruction, such as a DOCTYPE, never ends for the parser (`DeclarationsAreRefused`);
- a colon more than 256 characters into a tag can split the tag's name (`ParseReturnsWhatWasMeant`).

## Model

| member | source | states |
|---|---|---|
| VersionedMaps.PutReads | lib/versioned-map.ts:37-80 | A write at a revision changes no read below it and no read of another key, is what every later read gives, and is refused without effect below the newest recorded revision |
| VersionedMaps.RemoveReads | lib/versioned-map.ts:82-99 | The same for a deletion: the key reads as absent from that revision on, and all else as before |
| VersionedMaps.CollapseReads | lib/versioned-map.ts:166-185 | `collapse(c)` keeps all reads below c and makes every read from c on the old newest one, also for keys that it drops |
| VersionedMaps.CollapseFoldsDirty | lib/versioned-map.ts:172-174 | With c taken modulo 32: dirty bits below c stay, those above are gone, and bit c is set exactly if some bit from c on was; so from 32 on, bits below the revision are folded too |
| VersionedMaps.DiffReplays | lib/versioned-map.ts:154-164 | Replaying `diff()` on the view at revision 0 gives the newest view |
| VersionedMaps.DiffTellsExactly | lib/versioned-map.ts:154-164 | `diff()` yields a key if and only if it has more than one revision and exists at the first or the last, with what is read at revision 0 and at the newest; for all other keys these two reads agree |
| VersionedMaps.DiffUndoes | lib/versioned-map.ts:154-164 | With the first values in place of the last ones, the diff leads from the newest view back to that of revision 0 |
| VersionedMaps.DirtyGoesOnTelling | lib/versioned-map.ts:55-99 | With at most 32 revisions, a clear bit of the dirty word tells that its revision changes no read, and writes, deletions, new revisions and collapses keep this so |
| VersionedMaps.SizeCountsVisible | lib/versioned-map.ts:22-24 | Over every run of revision changes, writes and deletions at the newest revision, `size` at each revision is the number of keys that can be read there |
| VersionedMaps.CollapseLosesSize | lib/versioned-map.ts:166-185 | After a collapse of a map with exact sizes, every size falls short by exactly the number of keys that the collapse drops |
| VersionedMaps.DropsExactly | lib/versioned-map.ts:176-184 | A collapse drops a key if and only if it shortens the key's history and no reader finds the key any more |
| VersionedMaps.RoundTripsExactlyBelow31 | lib/versioned-map.ts:101-142 | `setRevisions(getRevisions(k))` ends and reads the same at every revision if and only if nothing changes at revision 31 or later; in particular for up to 31 revisions |
| VersionedMaps.DecodingNeverEnds | lib/versioned-map.ts:132 | With bit 31 set, the guard of the decoding loop never becomes zero |
| VersionedMaps.VersionedMap.Set | lib/versioned-map.ts:55-80 | The method's new state is the specified write, with the result of the refusal |
| VersionedMaps.VersionedMap.Delete | lib/versioned-map.ts:82-99 | The method's new state is the specified deletion |
| VersionedMaps.VersionedMap.SetRevision | lib/versioned-map.ts:30-35 | The loop extends the size differences as specified and keeps the store valid |
| VersionedMaps.VersionedMap.CollapseFrom | lib/versioned-map.ts:166-185 | Both the splices and the loop over all keys give the specified collapsed store |
| VersionedMaps.VersionedMap.GetRevisions | lib/versioned-map.ts:101-118 | The loop records exactly the changes of the history, deletions by bit and writes by revision |
| VersionedMaps.VersionedMap.SetRevisions | lib/versioned-map.ts:120-142 | Without bit 31 the bit-shift loop ends and stores the decoded history |
| VersionedMaps.VersionedMap.Size | lib/versioned-map.ts:22-24 | The getter returns the count of entries corrected by the size difference at the revision, which is the number of visible keys while sizes are exact |
| Scripts.RunRepeats | lib/sandbox.ts:201-285 | A script that runs again, with a newer limit and every read at or below the old limit still answered the same, is in the same state after as many steps until the first run stops to wait |
| Scripts.RunStopsAbove | lib/sandbox.ts:261-273 | A run stays between its first and its newest revision, and is suspended exactly one above the newest |
| Scripts.AnswerIsGiven | lib/sandbox.ts:275-285 | A call of an extension waits if and only if it has no answer at its revision; a run that has the answer, and reads the same otherwise, goes on from the very same place with it |
| Scripts.ReadsAreFresh | lib/sandbox.ts:150-188 | A read is answered at the revision at which it is made if and only if the script has declared nothing at that revision before; otherwise the script goes on to the next revision first, and no answer is given |
| Sessions.StepKeepsShape | lib/session.ts:1005-1520 | Every step keeps one revision for each level plus one, declarations for all levels or all but the newest, and ascending revisions, until the root script has finished |
| Sessions.StepKeepsLevel | lib/session.ts:1025-1520 | One step leaves the revisions below a level alone, never takes its own back, and changes no view at or below it |
| Sessions.ReplayIsStable | lib/session.ts:1462-1519 | Over every run of passes, responses and faults that keeps a level on the stack, a re-run script of that level goes through all its earlier replies; nested commits and collapses included |
| Sessions.StepKeepsCounts | lib/session.ts:1103-1179 | The iteration stays within its cycle's bounds, the cycle within 255, a pending request implies progress in the cycle, and the iteration never decreases |
| Sessions.SessionIsBounded | lib/session.ts:514-518 | Over every run: cycle M <= iteration <= (cycle + 1) M with M twice the commit limit, increasing (cycle, rpcCount) pairs of requests, and at most 255 times the limit sync passes |
| SessionWrites.NoWriteIsRefused | lib/versioned-map.ts:66-87 | After every run of a session, whatever is written at the revision above its stack, or above the level that a commit returns to, is accepted and read back, the last write for each key |
| SessionHistory.LevelsLeaveWhenFinished | lib/session.ts:1471-1519 | Over every run: in each pass, a level is popped if and only if nothing is left to do and its scripts reported in their last run that they had finished, with all declarations of all levels processed since; if they had not, it stays one revision later and is to run again; a level is pushed exactly for nested scripts; and the pass is idle exactly if the root is popped or there was nothing to do |
| SessionHistory.ScriptsRunNext | lib/session.ts:1025-1060 | A level that is to run does so in its next pass, one revision above the stack, unless it is a root that nothing is asked of |
| SessionHistory.SuspendedGoesOn | lib/session.ts:1476-1481 | After the commit of a level that has not finished, its revision is the one at which its suspended script stopped, and is beyond every other one of its scripts |
| SessionHistory.WaitsExactly | lib/session.ts:1007-1020 | A request is pending after a pass that makes one, and after a response exactly if it has a follow-up; never after a fault, a clear or added provisions |
| SessionHistory.StartsOver | lib/session.ts:499-512 | A clear, and added provisions, start the root over at revision 0: reads there stay, all later revisions become one if the session was past 0, and then the answers of extensions are forgotten; no level, declaration, request or sync state is left |
| SessionHistory.NothingWrittenIsLost | lib/session.ts:1005-1520 | After every run of a session, the newest value of every key is the last one that was written to it, and absent if none was; commits, collapses and clears lose nothing |
| SessionHistory.AnswersStay | lib/session.ts:1042-1050 | The first answer to an extension call at a revision stays until the level that asked is popped, when exactly the answers above the revision below go |
| SessionHistory.ClearedRunsOnlyAdded | lib/session.ts:545-577 | A cleared session has nothing to do, and what is added to it is all that it runs, each provision once and in the order of last mentions, for no other channel |
| SessionContexts.SessionContext.RpcRequest | lib/session.ts:1005-1479 | One pass of the engine on the context's fields is the specified step, with its outcome |
| SessionContexts.SessionContext.FinishLevel | lib/session.ts:1471-1519 | Popping a level, committing it and writing what it returned is the specified step |
| SessionContexts.SessionContext.ClearProvisions | lib/session.ts:545-577 | Clearing gives the specified session: revisions forgotten, a new cycle if anything happened, no provisions |
| SessionContexts.SessionContext.AddProvisions | lib/session.ts:486-543 | Adding provisions gives the specified session, masks included |
| SessionContexts.SessionContext.RpcResponse | lib/session.ts:2427-2442 | A response counts the RPC, and moves to the revision above the stack before writing |
| SessionContexts.SessionContext.RpcFault | lib/session.ts:2907-2925 | A fault drops the sync state and the request, counts the RPC, and writes only if it is recoverable |
| ProvisionResults.AddedKeepsOrder | lib/session.ts:520-543 | With at most 31 distinct provisions: no duplicates, no bit past the list, and re-added provisions at the end in the order of their last mention |
| ProvisionResults.AddedKeepsChannels | lib/session.ts:520-543 | The channel has what it had plus the added provisions, and every other channel exactly what it had |
| ProvisionResults.AddsOnlyExactly | lib/session.ts:520-543 | For a list of any length: adding one provision gives it to its channel and changes nothing else if and only if the list has at most 31, or the bits that it leaves behind or shares happen to be right: the sign or first bit with 32, the bit 32 places before for a new one. For one that is in a longer list, this only restates bit by bit what is to hold |
| ProvisionResults.ThirtyOneIsTheBound | lib/session.ts:529-540 | For every list: adding works with all masks if and only if the list has at most 31 provisions |
| ProvisionLoops.ShiftMasks | lib/session.ts:531-536 | The loop over the channels shifts every mask and collects the channels that had the bit |
| ProvisionLoops.AddProvisions | lib/session.ts:520-543 | The loops, with their splices and masks, compute the specified plan |
| Faults.AppendedIsUnion | lib/cwmp.ts:367-396 | For any two lists, nothing is lost, and nothing doubled that was not, negative splice indices included |
| Faults.AppendedEndUpLast | lib/cwmp.ts:375-393 | Without repetitions the result is the original without the appended, followed by the appended |
| Faults.OrderIsKeptExactly | lib/cwmp.ts:388-392 | Appending to an empty list keeps the order of last mentions if and only if each first mention finds no repetitions behind it, or at least as many as there are different provisions |
| Faults.RepetitionsBreakOrder | lib/cwmp.ts:389 | The list a, x, x, y, z is appended as x, y, a, z |
| Faults.AppendProvisions | lib/cwmp.ts:367-396 | For any two lists the loops compute the specified one; the result tells, for lists without repetitions, exactly whether it changed |
| FaultRecords.ProvisionsSurvive | lib/cwmp.ts:248-298 | Each faulted channel keeps exactly the provisions of its earlier fault and those its mask selects, each once |
| FaultRecords.FaultIsMarked | lib/cwmp.ts:248-270 | A channel is to be run again at once if and only if it has no retries and another channel ran with it; and its fault is one of the precondition if and only if none of its bits is set |
| FaultRecords.RetriesAreCounted | lib/cwmp.ts:263-268 | Over any number of faults, the retries of a channel are the faults it took part in after its first |
| FaultRecords.OthersKeepFaults | lib/cwmp.ts:248-298 | Exactly the channels that take part get a new fault; all others keep theirs |
| FaultRecords.FirstFaultKeepsOrder | lib/cwmp.ts:284-296 | A channel without an earlier fault keeps its selected provisions in their order |
| FaultRecords.FaultLog.RecordFault | lib/cwmp.ts:226-299 | Throws without effect if there is no channel; otherwise exactly the given channels get their fault, retry count and marks, and the provisions are cleared |
| PathRoundTrips.ParseUndoesPrint | lib/common/path.ts:118-205 | Parsing a printed well-formed path, nested aliases included, gives it back if and only if no alias value ends with a backslash, and throws otherwise |
| PathRoundTrips.ParsedIsWellFormed | lib/common/path.ts:118-148 | Whatever parses is well-formed: legal names, and sorted aliases with non-empty paths |
| PathSpellings.WrittenIsRead | lib/common/path.ts:39-148 | For every way to write a path: names, aliases with pairs in any order, spaces around paths, JSON strings or bare values with blanks around them, and any character behind an alias; what is written is read as what it means |
| PathLanguage.ReadIsWritten | lib/common/path.ts:39-148 | Whatever parses is one of those ways to write the path that comes out; nothing else is accepted |
| PathBare.BareParsesExactly | lib/common/path.ts:63-68 | For every well-formed path whose values have no comma or closing bracket, no quote at the start and no blanks at the ends: if the text with all values bare is read as that path, no value right behind a path that ends with an alias begins like a name; and if and only if so, given that none there begins with a bracket |
| PathBare.BareParsesAlike | lib/common/path.ts:63-68 | Under the same conditions the bare text and, if it can be read, the quoted one parse to the same path |
| PathBare.BlanksMakeNoDifference | lib/common/path.ts:63-68 | Blanks around a bare value do not change what it means |
| PathLanguage.AnythingSeparates | lib/common/path.ts:126-133 | After an alias any character at all is taken for the dot before the next segment |
| PathLanguage.OneCharacter | lib/common/path.ts:22-30 | The single characters that are paths are the letters and digits of ASCII, underscore, hyphen and the wildcard |
| PathLanguage.BlankCharacters | lib/common/path.ts:66 | The characters that are trimmed off are the white space and line terminators of ECMA-262, sections 12.2 and 12.3 |
| PathOrder.AliasOrderIsCanonical | lib/common/path.ts:85-116 | The same pairs of an alias, written in whatever order and as often, are sorted into the same list |
| PathInjectivity.PrintIsInjective | lib/common/path.ts:150-174 | Different well-formed paths never print alike, whatever their values are |
| JsonText.ScanFindsClosing | lib/common/path.ts:45-61 | The scan stops at the quote that was printed exactly if the value does not end with a backslash |
| PathReaders.ReadPath | lib/common/path.ts:118-148 | The index loop reads the same end and segments as the specification |
| PathReaders.ReadAlias | lib/common/path.ts:85-116 | The loop over the pairs reads the same sorted alias |
| PathReaders.ReadAliasPath | lib/common/path.ts:71-83 | A path and a colon are read, or the index is left where it was |
| PathReaders.ReadAliasValue | lib/common/path.ts:39-69 | A JSON string or bare text is read, or the index is left where it was |
| PathCaches.MasksAreExact | lib/common/path.ts:150-164 | Up to 32 segments, the bits of the masks tell exactly which segments are aliases and wildcards |
| PathCaches.PartOfText | lib/common/path.ts:166-213 | Cutting the text at the ends that `stringIndex` holds is printing those segments |
| PathCaches.SliceTextIsExact | lib/common/path.ts:199-213 | A slice is looked up under its own text if and only if it does not start behind the last segment with an end still further; there it is looked up under the whole text |
| PathCaches.Build | lib/common/path.ts:150-174 | The constructor's pass gives the masks, the text and the ends of all segments |
| PathCaches.PathCache.Parse | lib/common/path.ts:176-189 | With any coherent cache, text that parses gives what it parses to, and the cache stays coherent |
| PathCaches.PathCache.Slice | lib/common/path.ts:199-227 | With any coherent cache, a slice is the path object of those segments, and the cache stays coherent; outside the path an empty path is stored under the whole text |
| PathCaches.PathCache.Concat | lib/common/path.ts:229-247 | With any coherent cache, a concatenation is the path object of all segments |
| PathCaches.PathCache.StripAlias | lib/common/path.ts:249-265 | With any coherent cache, stripping puts a wildcard for every alias |
| PathCaches.PathCache.Rotate | lib/common/path.ts:268-271 | The timer keeps both halves coherent |
| PathSets.PathSet.Add | lib/common/path-set.ts:18-49 | The three indexes stay consistent and hold the old paths and the new one; an aliased path is refused |
| PathSets.PathSet.Find | lib/common/path-set.ts:55-110 | For paths of any length, on the fast and on the indexed branch, `find` lists each once exactly the stored paths up to the depth that agree by the mask, which are those that match under the superset and subset rules where only wildcards are marked |
| PathSets.FindsWhatMatchesExactly | lib/common/path-set.ts:78-83 | Agreeing by the mask is plain pattern matching if and only if only wildcards are marked, as in all paths of up to 32 segments, or neither supersets nor subsets are asked for |
| PathSets.PathSet.Walk | lib/common/path-set.ts:70-109 | The narrowing loop and the final length filter list exactly the paths that agree by the mask |
| PathSets.PathSet.Get | lib/common/path-set.ts:51-53 | Lookup by text finds the path itself or nothing |
| Devices.NoMissedInvalidation | lib/device.ts:173-355 | For a path: after every `set` and all the clears that it returns, in any order, every tracker on a parameter, or on a pattern for it, is marked if the parameter's existence changed or an attribute that it watches, parents and deleted descendants included; if and only if the path has at most 99 segments or is a pattern |
| Devices.ClearMissesNothing | lib/device.ts:173-236 | The same after any clear, and every tracker in its reach that watches one of its flags is marked |
| Devices.SetMissesNothing | lib/device.ts:253-355 | After a `set` alone, each change is marked or will be by a clear that it returns, for the paths that a clear can reach |
| DeviceMerges.UnknownIsReplaced | lib/device.ts:262-306 | A parameter without attributes, without a time or with time zero then has what is given and nothing of what it had: a non-empty value that is not older than the given object is read back as given, with object 0 at its time; else a true object that is not older than the given value is read back with a null value at its time; all else is read back as given. Its time is that of the call, if it had no later one |
| DeviceMerges.NewestWins | lib/device.ts:273-310 | For a known parameter each attribute has the newest of its stamp and of what is given, as above; the old one where times are equal; and its time is the latest among its own, that of the call, and those of all that is given |
| DeviceMerges.NothingGiven | lib/device.ts:262-323 | A call that gives nothing removes the attributes exactly if the parameter is known and older; for a pattern it writes nothing but the time of the pattern |
| DeviceMerges.ObjectsAbove | lib/device.ts:308-320 | After a `set` with attributes, every path above that is older, with all between, is an object as of the new time or a later stamp, and has that time; from the first one on that is not older, nothing above is touched |
| DeviceMerges.SetTouchesOnlyAncestors | lib/device.ts:308-320 | Nothing is written but the path and the paths above it |
| DeviceMerges.TimesNeverGoBack | lib/device.ts:310-323 | No `set` takes a time back |
| DeviceMarks.SetReturnsExactly | lib/device.ts:338-355 | For a path without wildcards: the clears that a `set` returns are exactly those for the path and for each object made above it, at their own times, where it was not known before or its `object` changed |
| DeviceMarks.SetMarksExactly | lib/device.ts:338-355 | A tracker is marked at once if and only if it watches something that changed at the path, or at an object made above it, of which no clear is returned |
| DeviceMarks.NothingGivenReturns | lib/device.ts:322-355 | A call that gives nothing marks nothing, and returns one clear for a parameter that it removes, or one for each older parameter that its pattern finds |
| DeviceClears.ClearRemovesExactly | lib/device.ts:184-210 | A parameter is gone after a clear if and only if the path finds it, it has at most 99 segments, and it is older than the given time or, below the path, than the time given for `object`; what stays keeps its time |
| DeviceClears.ClearDropsExactly | lib/device.ts:211-229 | An attribute of what stays goes if and only if the parameter is as long as the path and found, and its stamp is older than the time for that attribute or, for `value`, than the time for `object`; the others keep what they have |
| DeviceClears.ClearMarksExactly | lib/device.ts:232-236 | A tracker is marked by a clear if and only if it is in its reach and watches one of its flags, or the existence or an attribute of which anything went |
| DeviceClears.ClearsLeaveWhatAllSpare | lib/device.ts:184-210 | After any list of clears, in whatever order, exactly those parameters are left that each of them alone would leave, judged by the arguments of the calls; their times stay |
| DeviceCoherence.CoherenceIsInductive | lib/device.ts:272-308 | An object has no value and a value belongs to a leaf: kept by every `set`, whatever the order of timestamps, and by the clears that it returns |
| DeviceCoherence.ClearKeepsCoherenceExactly | lib/device.ts:184-228 | A clear keeps every coherent device coherent if and only if it does not clear the value for a later time than the object, or its path is too long for it to find anything |
| DeviceCoherence.MergedIsCoherent | lib/device.ts:287-303 | Merging two coherent attribute objects, each attribute by its own time, gives a coherent one |
| DeviceStates.DeviceData.Set | lib/device.ts:253-355 | The method's new data and returned clears are the specified ones |
| DeviceStates.DeviceData.Clear | lib/device.ts:173-236 | The loops delete, trim, collect and mark exactly what is specified |
| DeviceStates.DeviceData.Track | lib/device.ts:357-376 | One marker watches existence and the given attributes of one path, besides all that was watched before |
| DeviceStates.DeviceData.ClearTracker | lib/device.ts:387-389 | One marker is forgotten everywhere, and no other |
| Unpacking.Unpack | lib/device.ts:103-151 | Lists, each once, exactly the existing paths that match the stripped pattern and for which every key and value of every alias, nested ones too, is borne out below the same instance |
| Selections.SelectedExactly | lib/device.ts:103-151 | Selecting by wildcards and by comparing prefixes is selecting below the instance: a parameter is selected if and only if it exists as the path has it and, for every pair of every alias, below the very instance that the alias stands for in it, a parameter selected by the key has the text, read as a value of its own type; aliases in keys in the same way |
| Unpacking.MasksTell | lib/common/path.ts:150-164 | The masks of a path without aliases, and of every path of up to 32 segments, mark only what they should, which is all that unpacking needs |
| Unpacking.KeepBorne | lib/device.ts:123-147 | The nulling loops keep exactly the matches that some witness bears out, each once |
| AliasDeclarations.DeclaresExactlyWhatUnpackReads | lib/device.ts:68-101 | What is declared for a path are the patterns that unpacking it looks up, with the values of all nested ones, and nothing else |
| AliasDeclarations.GetAliasDeclarations | lib/device.ts:68-101 | The loops and the recursion build the specified declarations |
| DcSets.RegionsExactly | lib/db/synth.ts:440-495 | For one parameter and type, an assignment avoids every minterm if and only if it is all false or induced by one of the 2n + 1 regions of the ordered values, and not ruled out at an end of the domain |
| DcSetValues.RealValuesAreAllowed | lib/db/synth.ts:455-495 | What holds for an actual value of the type is never ruled out |
| DcSetValues.OnlyRealRemainExactly | lib/db/synth.ts:440-495 | Every assignment that is left for a type is that of an actual value if and only if no two compared values are neighbours in the type: false and true, a text and the same with a NUL behind it, consecutive object ids or milliseconds; for numbers always (a compared time must be whole milliseconds) |
| DcSetValues.OutsideIsDecided | lib/db/synth.ts:463-471 | An id before the first or after the last object id is left only with the comparisons that hold for every object id |
| DcSets.NullOrOneTypeExactly | lib/db/synth.ts:540-558 | The null and type minterms force exactly one of null and the listed types, and not null for the key |
| DcSets.DontCaresExactly | lib/db/synth.ts:426-560 | The whole set rules out exactly the assignments in which the comparisons or types of some parameter do not fit together |
| Synthesis.NumberedAlike | lib/db/synth.ts:432 | Truth values for the clause numbers avoid the lists exactly if the assignment to the clauses avoids the minterms |
| Synthesis.SynthContext.GetDcSet | lib/db/synth.ts:426-560 | The nested loops push the specified minterms, coded with numbers of their own |
| Synthesis.SynthContext.GetVar | lib/common/expression/synth.ts:15-24 | A new clause gets the next number, so that no two clauses share one |
| Locks.HoldersOwnAndAreAlone | lib/lock.ts:5-45 | Over every interleaving of acquisitions with arbitrary clocks, releases and TTL removals, whoever acquired within its ttl and has not released owns the document, so there are never two holders |
| Locks.AttemptExactly | lib/lock.ts:11-33 | For every document and clock: an attempt finds the lock busy, and changes nothing, exactly if another token's document is there; else its own document is there afterwards, and it succeeds exactly if the clocks are within 30 seconds |
| Locks.WhoSucceedsHolds | lib/lock.ts:11-33 | Who succeeds owns the document, and holds the lock for exactly its ttl while nothing but time goes by |
| Locks.FreeAgain | lib/lock.ts:36-45 | No other document is there at the start, after it was dropped, or after its owner has released it; a release by anyone else changes nothing for others |
| Locks.DroppedExactlyWhenExpired | lib/lock.ts:17 | After an attempt that was not busy, the document can be dropped exactly from the caller's reading plus ttl and tolerance on |
| Locks.SkewErrorLeavesLock | lib/lock.ts:13-27 | Over all runs after a call that fails for clock skew: every attempt of others finds the lock busy until it is released or dropped; nobody holds it, and it can be dropped exactly from the expiry on that the failed call wrote |
| Locks.SkewAllowanceIsNeeded | lib/lock.ts:17 | Without the allowance in `expire` a holder could lose the document exactly if its clock is behind |
| Locks.LockCollection.AcquireLock | lib/lock.ts:11-33 | One attempt is the specified atomic step, and touches no other lock |
| Locks.LockCollection.ReleaseLock | lib/lock.ts:36-45 | Release deletes the document exactly if the token owns it, and fails otherwise |
| SessionLocks.SessionOwnsLockAtEveryResponse | lib/cwmp.ts:208-223 | However others interleave, a session whose handlers finish in time owns the lock at every response and every renewal, because of how ttl is composed |
| SessionLocks.SessionStartsExactly | lib/cwmp.ts:1068-1102 | A session starts if and only if no other token's document is there and the clocks agree, and then holds and owns the lock |
| SessionLocks.SessionGoesOn | lib/cwmp.ts:214-222 | Over every run a renewal succeeds if and only if the clocks agree: it never finds the lock taken |
| SessionLocks.StepIsCovered | lib/cwmp.ts:1068-1075 | Each step of the session or of others keeps the lease long enough for the session's next response |
| SessionLocks.LockedSession.Start | lib/cwmp.ts:1068-1102 | The first request takes the lock and becomes a session, or leaves none |
| SessionLocks.LockedSession.WriteResponse | lib/cwmp.ts:208-213 | A response moves the activity time, and makes a renewal due exactly when the interval has passed |
| SessionLocks.LockedSession.ExtendLock | lib/cwmp.ts:214-222 | A renewal is the specified acquisition; a session that fails to extend its lock is over |
| SessionLocks.LockedSession.EndSession | lib/cwmp.ts:812-815 | The end releases the lock, and fails exactly if it was lost |
| InstancePlans.PlanMeetsLimits | lib/session.ts:2398-2424 | Existing and queued instances never exceed the maximum, and reach the minimum if and only if no queued one has exactly the keys, or enough others cover or can be completed |
| InstancePlans.ExactIsCountedTwice | lib/session.ts:2408-2419 | One queued instance with exactly the keys, two wanted: no other is created |
| InstancePlans.ProcessInstances | lib/session.ts:2395-2424 | The four loops leave the specified deletions and numbers of queued instances; a skipped call changes nothing |
| InstancePlans.StayingBounds | lib/session.ts:2399-2403 | At least the first `min` existing instances stay and at most the first `max` |
| InstancePlans.InstanceSet.Superset | lib/instance-set.ts:20-54 | Lists, most keys first, exactly the instances that have at least the keys |
| InstancePlans.InstanceSet.Subset | lib/instance-set.ts:56-91 | Lists, fewest keys first, exactly the instances that have no other keys |
| InstancePlans.InstanceSet.Add | lib/instance-set.ts:12-14 | A new object is queued, even if its keys are there already |
| InstancePlans.InstanceSet.Delete | lib/instance-set.ts:16-18 | Exactly the given object leaves the queue |
| Queries.Enumerate | lib/query.ts:71-83 | The loop ends and emits the combinations in the order of their numbers, the first key changing fastest |
| Queries.EachCombinationOnce | lib/query.ts:71-83 | Every choice of alternatives is emitted exactly once, at the place that its digits spell |
| Queries.EveryChoiceOnce | lib/query.ts:71-82 | The choices are the mixed-radix digits of the numbers below the product, one for one |
| Queries.CountOn | lib/query.ts:77-81 | The inner loop counts on by one, and runs off the end exactly at the last choice |
| Queries.ExpandValue | lib/query.ts:49-84 | The recursion over lists and objects gives all the alternatives of a value |
| QueryMeanings.ExpandedExactly | lib/query.ts:49-84 | A value is among the alternatives if and only if it is one meaning of what was given: each operand of one of the eight operators replaced by one of its own meanings, or undefined if it has none, and everything else as it is; lists item by item; no meaning for an object without keys |
| QueryMeanings.CombinationsExactly | lib/query.ts:64-84 | The combinations of an object are exactly the ways to pick one alternative for each key, or undefined where there is none |
| XmlRoundTrips.ParseUndoesRender | lib/xml-parser.ts:159-341 | Every rendered document is parsed to its tree: names, attribute text, leaf text and children, for tag names under 255 characters and well-quoted attributes; with comments and processing instructions anywhere between and in the text |
| XmlMarkup.MarkupIsSkipped | lib/xml-parser.ts:268-289 | A comment up to `-->` and an instruction up to `?>`, each outside quotes, leave no trace in the parser |
| XmlMarkup.DeclarationsAreRefused | lib/xml-parser.ts:268-281 | A document with any other declaration, such as CDATA or DOCTYPE, is refused |
| XmlRoundTrips.MismatchIsRefused | lib/xml-parser.ts:253-260 | A closing tag with another name than that of the innermost open element is refused |
| XmlRoundTrips.RootMayBeClosed | lib/xml-parser.ts:253-266 | A closing tag for the root behind all elements changes nothing |
| XmlRoundTrips.UnclosedIsRefused | lib/xml-parser.ts:332-337 | A document whose element is not closed is refused |
| XmlNames.ParseReturnsWhatWasMeant | lib/xml-parser.ts:223-306 | Names are split into prefix and local part as meant if and only if no unquoted colon of an attribute, at its offset modulo 256, falls into a name that has none |
| XmlNames.ShortTagsFit | lib/xml-parser.ts:225-226 | In tags of up to 256 characters that never happens |
| XmlNames.LateColonSplitsName | lib/xml-parser.ts:300-302 | A colon at offset 257 leaves the element `a` without a local name |
| XmlParser.ParseXml | lib/xml-parser.ts:159-341 | The loop over packed states computes the specified result |
| Entities.DecodeUndoesEncode | lib/xml-parser.ts:115-157 | Decoding encoded text gives back every text |
| Entities.EncodedIsPlain | lib/xml-parser.ts:148-157 | Encoded text has no angle brackets and no quotes |
| Entities.PredefinedEntities | lib/xml-parser.ts:148-157 | The five predefined entities stand for their characters, and every other character for itself |

## Left out

- HTTP, sockets, SOAP text, database driver calls, logging, debug files, extensions, ping, XMPP and UDP requests: input and output only.
- `ui/`, `bin/`, `provisions/` and the API server: user interface, start-up and straight-line scripts.
- Script bodies: a script is any function from the replies so far to its next call. Time-outs, a `try` around a commit, and `log` are not part of it.
- What the scripts declare, what a pass writes and which RPC follows from it: the session steps take these from an oracle, for every possible oracle. `generateGetRpcRequest`, `generateSetRpcRequest` and `processDeclarations` are therefore not modelled.
- The engine calls itself; here each such call is one pass, and all runs of passes are considered.
- A session whose root script has finished (lib/cwmp.ts:600-606): its stack of revisions is empty, and no pass is considered until a clear makes it active again; added provisions alone do not. Provisions are added only to a session without nested scripts.
- One store stands for both `timestamps` and `attributes` in the session model; the device model holds both as views at the current revision. Values are compared by contents, not by reference.
- VersionedMaps.DirtyGoesOnTelling: for stores of at most 32 revisions, as the word has no more bits.
- VersionedMaps.SizeCountsVisible: does not go across `setRevisions`, which does not adjust the size differences, nor across `collapse`, of which `CollapseLosesSize` tells.
- DeviceStates.DeviceData.Clear: the clear entry that is changed in place is a local value here, as no caller uses it again.
- Unpacking.Unpack: the order of the result, since the comparison (lib/device.ts:153-168) is not transitive when numbers and names mix; `sanitizeParameterValue` is a parameter. For patterns whose masks mark only wildcards and aliases, as all do up to 32 segments.
- Path objects have no identity of their own: that a cache returns the same object again is not stated.
- Surrogate pairs in JSON escapes are taken as malformed, and strings are compared by code unit.
- PathBare.BareParsesExactly: whether a value is read that begins with a bracket right behind a path that ends with an alias; that depends on whether the text from there on happens to be an alias.
- PathSpellings.WrittenIsRead: for the same reason, not for such values.
- PathReaders.ReadAlias: `sort`, `trim` and `JSON.parse` are functions, as they are built into the language.
- Synthesis.SynthContext.GetDcSet: takes the clauses already grouped by parameter and type with ascending values; the LIKE part (lib/db/synth.ts:498-538), `getTypes`, `getMinterms`, `roundOid` and `toQuery` are not part of this model. Clause numbers are taken as small enough to be doubled.
- DcSets.DontCaresExactly: without the LIKE clauses, as above.
- DcSetValues.OnlyRealRemainExactly: numbers are taken as reals, and times as whole milliseconds without a limit; a compared fraction of a millisecond is cut off by `toQuery`.
- Faults.AppendProvisions: for lists with repetitions, its result is not said to tell whether the list changed.
- FaultRecords.FaultLog.RecordFault: the expiry of tasks and the other fields of a fault are left out; clearing resets the provisions and channels only, the rest being in the session model.
- Locks.LockCollection.AcquireLock: waiting between attempts; each attempt is one event, and all runs of events are considered.
- SessionLocks.SessionOwnsLockAtEveryResponse: a session on one connection; the hand-off through the cache (lib/cwmp.ts:908-922, lib/cwmp.ts:1495-1505) is left out. Clocks may be off by any amount but run at the same rate.
- InstancePlans.ProcessInstances: the choice of the queue by parent and for `Downloads`; ties in the two sorts are broken in any way.
- Queries.ExpandValue: the alternatives of a text are a parameter; `permute`, `expand` and `sanitizeQueryTypes` are left out.
- Entities.DecodeUndoesEncode: numeric references are a parameter, as encoded text has none.
- XmlParser.ParseXml: `bodyIndex` of the result, and `parseAttrs`.
- Uniqueness of the printed RPC id: its two digits can wrap; the (cycle, rpcCount) pair stands for it.
- `encodeTag` and `decodeTag` (lib/util.ts:34-46): not inverse on all strings.
