# Models of the build, translation and benchmark scripts

This project models the algorithms and protocols inside the repository's build and CI scripts and proves
what they are for. Each module follows one component.

| module | component |
|---|---|
| KotlinTemplate, AndroidEscape, AndroidRender | the Android string compiler: a scanner for Kotlin `$name` / `${expression}` interpolations, the rewrite of a translation into a positional format string, and the escape/decode pair of resource files |
| ProcessRun, RunProcess, SignalBarrier, OutputCapture | the child process runner as a state machine over timeout, kill timer, parent signal, output, error and close; the barrier of all active runs before a parent signal is raised again; the bounded output |
| TranslationBatching, TranslateSplit, Placeholders | greedy batching, and translation of a batch with retries and halving on timeout |
| LoadBalance, DeclarationPartition | least-loaded assignment of entry groups to declaration builds |
| OutputReservation | the race-tolerant reservation of an output directory |
| JsonEnvelope, JsonLiteral | finding a JSON object in front of other output; JSON string literals |
| AppleCatalog, AppleCatalogContents, TranslationChoice | the Apple catalog build, what it puts into the catalog, and the two translation choosers |
| InfoPlistStrings, StringsPattern | the `InfoPlist.strings` files: printing, parsing and syncing them, and the texts their pattern matches |
| LineSplitter | cutting child output into lines as it arrives |
| PathGlob | the `*` / `**` matcher for config paths |
| CatalogAnalysis | comparing locale catalogs with the English one |
| BraceScanner | finding a closing brace past quoted text, shared by the two scanners |
| Text, Sequences, Wrappers | string operations, sorting and sequences shared by the others |

Loops and objects of the scripts are methods and classes proved against specification functions; the
theorems are about those functions. Processes and file systems are transition systems: the environment
chooses every event, its order and its outcome, and a theorem holds for every sequence of events.

## Where the code does not keep the obvious promise

- **Signal barrier: a signal can be lost.** A run that starts after a parent signal, while other runs are still
  draining, can make the signal disappear: if it leaves last it leaves without asking for the signal to be
  raised again (`SignalBarrier.OpeningReraisesExactly` for the step that opens the barrier). That alone is not
  yet a loss, because a signalled run that is done may still close later and ask again.
  `SignalBarrier.LostExactlyWhenDrained` gives the exact condition for every reachable state and every signal:
  until it arrives again, the parent can still be signalled it if and only if some run that got it is not done
  or has not closed. `SignalBarrier.LateStartLosesSignal` is a concrete run that ends in the lost state.
- **Signal barrier: the wrong signal can be raised.** The barrier asks whether every run has got some signal, not
  which. When a run starts between two different signals, the parent can be signalled the first one although a
  registered run never got it, and not the second (`SignalBarrier.FirstSignalIsReraised`). With no start after a
  signal, that signal and nothing else is raised again if and only if every run that got another one before is
  done and has closed (`SignalBarrier.OnlyThisSignalExactly`), and it has been raised whenever the barrier is open
  if and only if every such run is done (`SignalBarrier.ThisSignalExactly`).
- **Resource escaping.** A value with a backslash directly before the letter n is read back with a line break
  in place of the n (`AndroidEscape.BackslashNIsLost` for the shortest one). `AndroidEscape.ResourceRoundTrip`
  says what is read back for every value, `AndroidRender.ResourceMeaningExact` for which translations a
  formatted string keeps its meaning, and `AndroidRender.BackslashNChangesMeaning` is a concrete pair that
  loses it.
- **InfoPlist files.** When two entries of one property list share a key but not the source text, a file can
  be stale right after it was written. `InfoPlistStrings.CheckAfterWrite` gives the exact condition,
  `InfoPlistStrings.DuplicateKeyIsStale` a concrete input; a second write always settles
  (`InfoPlistStrings.SecondWriteSettles`).
- **Output limit zero.** `appendBoundedProcessOutput` with a limit of zero keeps everything
  (`OutputCapture.ZeroLimitKeepsEverything`); the runner itself never passes zero (`OutputCapture.OutputLimit`).
- **Choosers.** On the empty list the Android chooser returns the empty string and the Apple chooser the source
  text (`TranslationChoice.ChoosersOnNothing`).

## Model

| member | source | states |
|---|---|---|
| KotlinTemplate.ReadName | scripts/android-app-i18n.ts:162-170 | the name loop stops behind the longest run of name characters |
| KotlinTemplate.ReadExpression | scripts/android-app-i18n.ts:172-198 | the loop over a `${` body stops just behind the character that closes the last open brace, braces in quotes and escaped quotes not counted, or reports braces left open |
| KotlinTemplate.ReadKotlinInterpolations | scripts/android-app-i18n.ts:151-201 | the scanner loop finds exactly the interpolations of the recursive scan, or null for an unclosed one |
| KotlinTemplate.ScanIsWellPlaced | scripts/android-app-i18n.ts:151-201 | reported tokens are in order, do not overlap and carry the text that stands at their place |
| KotlinTemplate.ScanOfPrint | scripts/android-app-i18n.ts:151-201 | scanning a printed template of the interpolation grammar yields that template's tokens at their places |
| KotlinTemplate.TemplateOfScan | scripts/android-app-i18n.ts:151-201 | every text the scanner accepts is the print of a valid template |
| KotlinTemplate.ScannerAcceptsExactlyTemplates | scripts/android-app-i18n.ts:151-201 | the scanner accepts a text if and only if it is a template |
| AndroidRender.TokenCounts | scripts/android-app-i18n.ts:214-220 | the map holds each token with its number of occurrences |
| AndroidRender.CountsDecideMultisets | scripts/android-app-i18n.ts:221-225 | comparing the counts is comparing the token multisets |
| AndroidRender.SourceIndices | scripts/android-app-i18n.ts:227-232 | the map lists for each token its one-based places in source order |
| AndroidRender.ArgIndexNamesToken | scripts/android-app-i18n.ts:238-242 | the index written for a token names a source argument with the same token and the same rank among its equals; so the raw-token fallback is never needed |
| AndroidRender.ArgIndexInverse | scripts/android-app-i18n.ts:238-242 | every source argument is the index of some token of the translation |
| AndroidRender.ArgIndicesArePermutation | scripts/android-app-i18n.ts:238-242 | the indices written are a permutation of 1..n |
| AndroidRender.Rewrite | scripts/android-app-i18n.ts:233-245 | the rewriting loop writes positional references for all tokens and doubles percent signs elsewhere; it never falls back to a raw token |
| AndroidRender.RenderAndroidResourceValue | scripts/android-app-i18n.ts:203-248 | succeeds exactly when both texts scan and use the same token multiset, tells the two errors apart, and returns the escaped rendering |
| AndroidRender.FormatOfPositional | scripts/android-app-i18n.ts:233-245 | formatting a positional text gives the text with every token replaced by its argument |
| AndroidRender.TemplateMeaning | scripts/android-app-i18n.ts:151-201 | replacing the scanned tokens by values gives the meaning of the template |
| AndroidRender.RenderingPreservesMeaning | scripts/android-app-i18n.ts:203-247 | for every accepted pair with interpolations and every assignment of strings to tokens, formatting the rendered text with the source's tokens as positional arguments gives the meaning of the translation |
| AndroidRender.PlainTextIsKept | scripts/android-app-i18n.ts:203-247 | without interpolations the translation is kept, and is its own meaning |
| AndroidRender.AcceptedKeepsMeaning | scripts/android-app-i18n.ts:203-247 | every accepted translation is a template and the rendering keeps its meaning |
| AndroidRender.FormatShowsChange | scripts/android-app-i18n.ts:126-143 | replacing some letters n of a format string by line breaks never breaks it and always changes what it formats to |
| AndroidRender.NoPairPositional | scripts/android-app-i18n.ts:233-245 | the rendered text has a backslash directly before an n exactly when some stretch of the translation between its tokens has |
| AndroidRender.ResourceMeaningExact | scripts/android-app-i18n.ts:126-259 | the value the script reads back from the resource file formats to the meaning of the translation exactly when no stretch of the translation between its tokens has a backslash directly before an n |
| AndroidRender.BackslashNChangesMeaning | scripts/android-app-i18n.ts:126-259 | a concrete accepted pair whose meaning is lost |
| AndroidEscape.EscapeIsBlocks | scripts/android-app-i18n.ts:250-259 | the seven replacements amount to escaping each character by itself |
| AndroidEscape.DecodeXmlOfEscape | scripts/android-app-i18n.ts:126-136 | what the eight decoding replacements make of an escaped value |
| AndroidEscape.ResourceRoundTrip | scripts/android-app-i18n.ts:126-143 | decoding the quoted escape of any value gives the value with every backslash-n pair turned into backslash and line break |
| AndroidEscape.ResourceRoundTripExact | scripts/android-app-i18n.ts:138-143 | the value comes back unchanged exactly when it has no backslash directly before an n |
| AndroidEscape.SpacedRoundTrip | scripts/android-app-i18n.ts:126-143 | white space around a resource changes nothing: quoted, and unquoted when the value has no white space but line breaks at its ends, the escaped value is read back as the value with every backslash-n pair turned |
| AndroidEscape.UnquotedRoundTrip | scripts/android-app-i18n.ts:138-143 | what is read back from any value written without quotes: its part between the white space at its ends, with every backslash-n pair turned; line breaks at the ends stay |
| AndroidEscape.UnquotedRoundTripExact | scripts/android-app-i18n.ts:138-143 | without quotes a value comes back unchanged exactly when it has no backslash directly before an n and no white space but line breaks at its ends |
| AndroidEscape.PlainTextIsRead | scripts/android-app-i18n.ts:138-143 | text without ampersand and backslash is read as it stands, without the white space around it and without one pair of quotes |
| AndroidEscape.LoneQuoteIsRead | scripts/android-app-i18n.ts:138-143 | a resource that is a single quote is read as nothing |
| AndroidEscape.EntitiesAreRead | scripts/android-app-i18n.ts:126-136 | text without backslashes in which every `<`, `>`, `"` and `&` is written as its entity is read back as it was |
| AndroidEscape.BackslashNIsLost | scripts/android-app-i18n.ts:132-132 | the two characters backslash and n come back as backslash and line break |
| OutputCapture.OutputLimit | scripts/control-ui-i18n.ts:553-559 | an absent or non-positive limit means one mebi, a positive one below one means one, any other is rounded down |
| OutputCapture.AppendKeepsTail | scripts/control-ui-i18n.ts:561-572 | appending keeps the capture the last characters of the output, and kept plus truncated the total |
| OutputCapture.CaptureIsTailOfOutput | scripts/control-ui-i18n.ts:561-572 | for every chunking, the capture holds the last min(total, limit) characters and kept plus truncated equals total |
| OutputCapture.ZeroLimitKeepsEverything | scripts/control-ui-i18n.ts:561-572 | with limit zero nothing is dropped, so the promise holds only for empty output |
| ProcessRun.ReactKeepsInv | scripts/control-ui-i18n.ts:604-800 | every event keeps the invariant of a run: settlement, relay and progress |
| ProcessRun.AfterKeepsInv | scripts/control-ui-i18n.ts:590-802 | the invariant holds after every sequence of events |
| ProcessRun.RunIsSafe | scripts/control-ui-i18n.ts:702-800 | in every event order the promise settles at most once, a timed-out run never resolves, and a run whose close was deferred settles, without a spawn error, only after SIGKILL was sent |
| ProcessRun.CloseInGraceWaitsForKill | scripts/control-ui-i18n.ts:746-800 | when the child closes inside the kill grace with its group alive, then whatever happens before and after, the run settles, without a spawn error, only after SIGKILL was sent |
| ProcessRun.UnsignalledRunSettles | scripts/control-ui-i18n.ts:717-800 | a closed run without a parent signal has settled, or its armed kill timer settles it |
| ProcessRun.SettledIsOver | scripts/control-ui-i18n.ts:702-716 | in every event order, all that can follow the settlement is a SIGKILL, and only when a parent signal was relayed before it; a settled run has no timeout armed and listens for no signal, and without a parent signal it has no kill timer |
| ProcessRun.SignalsAreBalanced | scripts/control-ui-i18n.ts:623-764 | in every event order a run relays at most one parent signal, sends SIGTERM at most once, and sends at most one SIGKILL for each of these |
| ProcessRun.TimeoutEscalates | scripts/control-ui-i18n.ts:746-764 | a timeout that fired has sent SIGTERM, and unless the run has settled or its group is gone, SIGKILL was sent or its timer is armed; the timer sends SIGKILL |
| ProcessRun.SpawnErrorRejects | scripts/control-ui-i18n.ts:771-775 | a spawn error rejects a run that has not settled, for that reason, and does nothing else |
| ProcessRun.HistoryIsWitnessed | scripts/control-ui-i18n.ts:671-800 | a close with its exit code (1 when there is none), a spawn error and a missing group are recorded only when an event said so |
| ProcessRun.SettlesExactly | scripts/control-ui-i18n.ts:717-745 | a run has settled exactly when there is an outcome; except for a spawn error it is a timeout if and only if the timeout fired, otherwise a failure if and only if the exit code is not zero and failures are to be rejected, otherwise too much output if and only if the code is zero and more than the limit was heard, and in all other cases the run resolves with the exit code |
| ProcessRun.ResolvedOutputIsComplete | scripts/control-ui-i18n.ts:717-767 | a resolution with exit code zero carries everything that was heard from the child, any other resolution the end of it |
| RunProcess.Runner.Handled | scripts/control-ui-i18n.ts:604-800 | a state that is the reaction to an event is again one its events lead to: settled at most once, never resolved once timed out, a deferred close settled only after SIGKILL |
| RunProcess.Runner.OnTimeout | scripts/control-ui-i18n.ts:760-764 | over the object's whole life the state stays the one its events lead to, and stays safe; SIGTERM is sent |
| RunProcess.Runner.OnGraceExpired | scripts/control-ui-i18n.ts:751-758 | likewise; SIGKILL is sent before anything else, and a deferred close settles |
| RunProcess.Runner.OnParentGraceExpired | scripts/control-ui-i18n.ts:675-681 | likewise; SIGKILL is sent, the run is done and asks for the signal that armed the timer |
| RunProcess.Runner.OnParentSignal | scripts/control-ui-i18n.ts:658-685 | likewise; the signal is passed on, and the run is done and asks at once exactly when its group is gone |
| RunProcess.Runner.OnStdout | scripts/control-ui-i18n.ts:765-767 | likewise; the capture is that of all chunks so far |
| RunProcess.Runner.OnError | scripts/control-ui-i18n.ts:771-775 | likewise; the run is settled |
| RunProcess.Runner.OnClose | scripts/control-ui-i18n.ts:781-800 | likewise; a close that has to wait is remembered and settles nothing, any other leaves the run settled or done |
| RunProcess.MayReraise | scripts/control-ui-i18n.ts:581-588 | the loop lets the signal through exactly when every registered run has got it and is done |
| SignalBarrier.ReraisedOnlyBehindBarrier | scripts/control-ui-i18n.ts:581-588 | in every interleaving of any number of runs, a step that signals the parent leaves every registered run signalled and done, its group gone or killed, and signals only what registered runs got |
| SignalBarrier.ReraisedArrived | scripts/control-ui-i18n.ts:658-685 | every signal the parent is signalled is one that arrived |
| SignalBarrier.OpeningReraisesExactly | scripts/control-ui-i18n.ts:581-588 | the reaction that opens the barrier re-raises if and only if it is the reaction of a run that got the signal |
| SignalBarrier.LastRunReraises | scripts/control-ui-i18n.ts:658-802 | if no run starts after the signal, every registered run is done or has its parent kill timer armed, the last run to be done has signalled the parent, and firing the armed timers makes that happen; it is this signal if every run that got another one before was done |
| SignalBarrier.DrainedNeverReraises | scripts/control-ui-i18n.ts:581-588 | once every run that got a signal is done and closed, nothing that starts, happens or arrives raises that signal again before it arrives again |
| SignalBarrier.UndrainedCanReraise | scripts/control-ui-i18n.ts:658-800 | as long as some run that got a signal is not done or closed, events of the runs there are can still raise it; when that run is not done, it alone |
| SignalBarrier.LostExactlyWhenDrained | scripts/control-ui-i18n.ts:581-588 | in every reachable state and for every signal, the parent can still be signalled it before it arrives again if and only if some run that got it is not done or has not closed |
| SignalBarrier.OnlyThisSignalExactly | scripts/control-ui-i18n.ts:581-588 | with no start after a signal, the parent is signalled it and nothing else in every continuation if and only if every run that got another signal before is done and has closed |
| SignalBarrier.ThisSignalExactly | scripts/control-ui-i18n.ts:658-802 | with no start after a signal, the parent has been signalled it whenever the barrier is open, in every continuation, if and only if every run that got another signal before is done |
| SignalBarrier.FirstSignalIsReraised | scripts/control-ui-i18n.ts:590-802 | a concrete run with a start between two signals: the first is raised although a registered run never got it, the second is not |
| SignalBarrier.LateStartLosesSignal | scripts/control-ui-i18n.ts:590-802 | a concrete run with a late start ends with all runs that got the signal done and closed, and without a re-raise |
| TranslationBatching.ChargeIs | scripts/control-ui-i18n.ts:535-537 | the running charge of a batch is its estimate plus two for each item: two, ten for each item, and the length of its keys and texts |
| TranslationBatching.BuildTranslationBatches | scripts/control-ui-i18n.ts:885-909 | the batches are a legal split of the items in order, and no legal split has fewer batches |
| TranslationBatching.OvertakingIsLegal | scripts/control-ui-i18n.ts:891-902 | a batch of another split that gets past the end of a greedy batch shows that the greedy batch could have taken one more item |
| TranslationBatching.TightStaysAhead | scripts/control-ui-i18n.ts:885-909 | after as many batches a greedy split has come at least as far as any legal split |
| TranslationBatching.TightIsOptimal | scripts/control-ui-i18n.ts:885-909 | a greedy split uses the fewest batches |
| Placeholders.MatchesAreWhatStands | scripts/control-ui-i18n.ts:321-325 | the left-to-right matches are exactly the `{name}` placeholders that stand in the text |
| Placeholders.ExtractIsWhatStands | scripts/control-ui-i18n-verify.ts:55-59 | the extracted names are exactly those of the placeholders in the text |
| TranslateSplit.ParseTranslationBatchReply | scripts/control-ui-i18n.ts:1017-1033 | accepts and refuses a reply as `AcceptedExactly` and `RefusedWith` say |
| TranslateSplit.AcceptedIsComplete | scripts/control-ui-i18n.ts:1017-1033 | an accepted reply for distinct keys has exactly the items' keys, with nonblank values and the placeholders of their sources |
| TranslateSplit.AcceptedExactly | scripts/control-ui-i18n.ts:1017-1033 | a reply is accepted exactly when it is an answer with a nonblank text for every item that keeps the placeholders of the last item with its key, and then it yields the fields of the items and no others |
| TranslateSplit.RefusedWith | scripts/control-ui-i18n.ts:1017-1033 | a refused reply fails with its own message, with the first key that has no text, or, when every key has one, with the error about placeholders |
| TranslateSplit.TimeoutIs | scripts/control-ui-i18n.ts:494-496 | a message is a timeout exactly when it has the words timed out anywhere, in capital letters or not |
| TranslateSplit.TranslateBatch | scripts/control-ui-i18n.ts:1035-1095 | the retry loop with recursive halves returns and prompts, for every sequence of replies, as `TranslatedExactly`, `CourseIsRun` and `FailureHasCause` say |
| TranslateSplit.CourseIsRun | scripts/control-ui-i18n.ts:1044-1091 | whenever the replies take a course (at most one refusal, then an accepted answer or a timeout after which both halves take one), the batch is translated with exactly the prompts of that course, into the accepted answers, and those of the right half win |
| TranslateSplit.TranslatedExactly | scripts/control-ui-i18n.ts:1044-1091 | a batch is translated if and only if the replies take such a course |
| TranslateSplit.FailureHasCause | scripts/control-ui-i18n.ts:1072-1095 | a batch fails only because for some part of it the last prompt sent timed out and the part cannot be cut in two, or was refused like the one before; it fails with the error of that prompt |
| TranslateSplit.TranslatedIsComplete | scripts/control-ui-i18n.ts:1035-1095 | whenever a batch of distinct keys is translated, after any retries and splits, the map is complete |
| TranslateSplit.PromptBound | scripts/control-ui-i18n.ts:1035-1095 | n items issue at least one and at most 4n - 2 prompts |
| LoadBalance.PartitionUnifiedEntryGroups | tsdown.config.ts:537-558 | each group goes to the first least-loaded partition; zero partitions fail exactly when there is a group |
| LoadBalance.PartitionsAreWholeGroups | tsdown.config.ts:537-558 | a partition is the groups chosen for it, whole and in order |
| LoadBalance.NothingLostOrDuplicated | tsdown.config.ts:537-558 | the partitions together hold every entry as often as the groups |
| LoadBalance.LoadBound | tsdown.config.ts:537-558 | m times any load is at most the total plus (m - 1) times the largest group |
| LoadBalance.GreedyAgainstAnyAssignment | tsdown.config.ts:537-558 | m times any load is at most 2m - 1 times the largest load of any other assignment of the groups |
| LoadBalance.SingletonsAreEven | tsdown.config.ts:537-558 | with single entries any two loads differ by at most one |
| DeclarationPartition.GroupById | tsdown.config.ts:575-588 | the map collects the extension entries by id, ids in order of first appearance, empty ids skipped |
| DeclarationPartition.BuildUnifiedDeclarationPartitions | tsdown.config.ts:565-612 | there are eight builds with the fixed names in order, each listing the normalized sources of its partition of the sorted entries |
| DeclarationPartition.PartitionsCount | tsdown.config.ts:565-612 | every entry is there as often as in the input, except extension names with an empty id, which are nowhere |
| DeclarationPartition.PartitionsAreExactCover | scripts/lib/tsdown-config-groups.mjs:4-13 | with distinct names, every kept entry lands in exactly one of the eight partitions and nothing else lands anywhere |
| DeclarationPartition.PartitionsArePlaced | tsdown.config.ts:571-602 | an entry lands in the first partition, the next two or the last five exactly when its name is no special one, starts with `plugin-sdk/`, or starts with `extensions/` |
| DeclarationPartition.ExtensionIdIs | tsdown.config.ts:580-583 | the id of an extension is what stands between the first two slashes of its name, or behind the only one |
| DeclarationPartition.ExtensionStaysTogether | tsdown.config.ts:594-599 | all entries of one extension land in one of the five extension partitions |
| OutputReservation.AcceptsStrictDescendants | scripts/code-mode-model-matrix.ts:479-489 | the check on the relative path accepts exactly the strict descendants of the root |
| OutputReservation.ReserveOutputDir | scripts/code-mode-model-matrix.ts:475-524 | with creators interfering at every step and any operation failing: the call succeeds exactly when it created the output, all segments are then directories, and all it created is new; it returns a system error only when an operation failed or the root was no directory, and any other error names what was found at the segment where the walk stopped, behind directories; when no operation failed and the root was a directory, it succeeds if and only if nothing but what it created itself is in its way |
| OutputReservation.StepKeepsInv | scripts/code-mode-model-matrix.ts:490-523 | every atomic step of any process keeps the reservation invariant |
| OutputReservation.ReservationIsExclusive | scripts/code-mode-model-matrix.ts:475-524 | for every interleaving, a process that returns created its last segment itself and stands on directories, two that return reserved different outputs, and no segment takes a third pass |
| OutputReservation.FailuresHaveReasons | scripts/code-mode-model-matrix.ts:490-523 | for every interleaving, a process that fails with a system error had a fault or no root, and one that fails otherwise came past directories to what its error names |
| OutputReservation.OwnersAreNew | scripts/code-mode-model-matrix.ts:499-501 | what existed before is never owned and never vanishes |
| OutputReservation.EverybodyFinishes | scripts/code-mode-model-matrix.ts:490-523 | a process that gets its turn again and again has finished after four turns for each segment at the latest, whatever the others do in between |
| OutputReservation.SomebodyWins | scripts/code-mode-model-matrix.ts:490-523 | if the root is a directory, the output is free, its parents are open and only these processes act, without faults, then once all have finished one has returned |
| JsonEnvelope.ParseAgentExecOutput | scripts/code-mode-model-matrix.ts:781-820 | the scanner loop finds the slice and remainder of the specification and its four errors |
| JsonEnvelope.ValueSkips | scripts/code-mode-model-matrix.ts:792-818 | scanning over any JSON value comes back to the state it started in |
| JsonEnvelope.ObjectCloses | scripts/code-mode-model-matrix.ts:792-818 | for every JSON object and any text behind it, the scanner stops exactly at the object's closing brace |
| JsonEnvelope.EnvelopeIsFound | scripts/code-mode-model-matrix.ts:781-820 | white space, object and trailing text: the whole object is parsed and the remainder is the trimmed trailing text |
| JsonEnvelope.OtherOutputIsRefused | scripts/code-mode-model-matrix.ts:781-791 | blank output has no envelope, and output that starts with anything but a brace is none |
| JsonEnvelope.CutEnvelopeIsIncomplete | scripts/code-mode-model-matrix.ts:819-819 | an object cut off anywhere is reported as incomplete |
| TranslationChoice.CountValues | scripts/apple-app-i18n.ts:621-624 | the map counts each value, its keys in order of first appearance |
| TranslationChoice.ChooseAppleTranslation | scripts/apple-app-i18n.ts:618-631 | the Apple chooser computes its specification |
| TranslationChoice.ChooseAndroidTranslation | scripts/android-app-i18n.ts:1047-1062 | the Android chooser computes its specification |
| TranslationChoice.AppleChooses | scripts/apple-app-i18n.ts:618-631 | the Apple choice is a candidate, the source only if nothing else is offered, and beats every other candidate by frequency and then by text order |
| TranslationChoice.AndroidChooses | scripts/android-app-i18n.ts:1047-1062 | the Android choice satisfies the same description |
| TranslationChoice.ChoiceIsUnique | scripts/apple-app-i18n.ts:618-631 | only one value satisfies it, and it depends on the candidates only as a multiset |
| TranslationChoice.ChoosersAgree | scripts/android-app-i18n.ts:1047-1062 | on nonempty lists both choosers return the same value whatever the order, the source exactly when every candidate is the source |
| TranslationChoice.ChoosersOnNothing | scripts/android-app-i18n.ts:1054-1061 | on the empty list they differ |
| AppleCatalog.CollectTranslations | scripts/apple-app-i18n.ts:655-668 | one artifact's candidates by written source, in order, those of unknown sources or ids skipped |
| AppleCatalog.CollectLocales | scripts/apple-app-i18n.ts:653-671 | the candidates by locale, a later artifact of a locale replacing an earlier one |
| AppleCatalog.LocalizeSource | scripts/apple-app-i18n.ts:676-706 | the loop over the locales gives the localizations and contradictions that `CatalogHolds` and `ContradictionsAreExact` describe |
| AppleCatalog.BuildAppleCatalog | scripts/apple-app-i18n.ts:633-720 | the loops build the catalog and the sorted contradictions that the next rows describe |
| AppleCatalogContents.CatalogCovers | scripts/apple-app-i18n.ts:639-645 | the catalog has exactly the written sources of the entries that belong to it, each once and in text order, and for each of them exactly the required locales |
| AppleCatalogContents.CatalogHolds | scripts/apple-app-i18n.ts:684-706 | for every source and required locale an earlier nonempty translation is kept, English is the source, and any other unit holds the choice among the translations the last artifact of the locale offers for this source and an id of it, counted as often as they are offered, or the source when there are none; it is marked translated exactly when it differs from the source |
| AppleCatalogContents.ContradictionsAreExact | scripts/apple-app-i18n.ts:679-719 | a contradiction is reported for exactly the sources and required locales with two or more different offered translations, with exactly these in text order, sorted by source and then by locale |
| AppleCatalog.SyncIsFixpoint | scripts/apple-app-i18n.ts:633-720 | rebuilding from the catalog just built gives the same catalog and contradictions |
| AppleCatalog.SyncIosCatalog | scripts/apple-app-i18n.ts:902-927 | a write always succeeds and leaves the catalog and the report of the build; a check changes nothing, and fails for the catalog exactly when it is not the one of the build, and otherwise for the report when that differs or is missing |
| AppleCatalog.CheckAfterWritePasses | scripts/apple-app-i18n.ts:902-927 | when the catalog just written is read back with its entries, in whatever order, the check passes and another write changes nothing |
| AppleCatalog.BuildIgnoresOrder | scripts/apple-app-i18n.ts:633-720 | with distinct artifact locales the build does not depend on the order of source entries, artifacts or translations |
| JsonLiteral.LiteralRoundTrip | scripts/apple-app-i18n.ts:449-451 | reading the literal written for a string gives the string back |
| JsonLiteral.LiteralFound | scripts/apple-app-i18n.ts:493-495 | the literal pattern finds a written literal whole, whatever follows it |
| JsonLiteral.EachIsWritten | scripts/apple-app-i18n.ts:449-451 | every character is written as it is, with the short escape it has, or with four small hexadecimal digits |
| JsonLiteral.UnicodeIsRead | scripts/apple-app-i18n.ts:497-500 | an escape of four hexadecimal digits in either case is read as the character with that code |
| JsonLiteral.PairIsRead | scripts/apple-app-i18n.ts:497-500 | two such escapes of a surrogate pair are read as the one character they encode |
| InfoPlistStrings.ParseStringsFile | scripts/apple-app-i18n.ts:491-502 | the match loop stores every match in order, the last one of a key counting, and fails on a literal that is no JSON |
| StringsPattern.LiteralEndExactly | scripts/apple-app-i18n.ts:493-495 | at one place of a text there is at most one literal of the pattern, and the matcher finds it |
| StringsPattern.MatchExactly | scripts/apple-app-i18n.ts:493-495 | on any text, the matcher finds a match exactly where one stands: at the start of a line, the optional comment line, then key, equals sign, value and semicolon with any white space between |
| StringsPattern.MatchesAreFirst | scripts/apple-app-i18n.ts:493-495 | the search finds the matches of any text from left to right, each the first one behind the one before, and none is left |
| StringsPattern.ParsedExactly | scripts/apple-app-i18n.ts:491-502 | any file is read as the entry of the last match for each key, with the source text if it has the comment, and cannot be read exactly when some match has a literal that is no JSON |
| InfoPlistStrings.MatchesOfPrint | scripts/apple-app-i18n.ts:493-495 | the matches in a printed file are its lines, comment included, and nothing else |
| InfoPlistStrings.PrintParseRoundTrip | scripts/apple-app-i18n.ts:491-502 | parsing a printed file never fails, finds the printed keys and no others, and gives back every line's source and value exactly when lines with the same key are the same |
| InfoPlistStrings.DistinctKeysRoundTrip | scripts/apple-app-i18n.ts:552-557 | with distinct keys every key, source comment and value comes back |
| InfoPlistStrings.PrintIsInjective | scripts/apple-app-i18n.ts:552-557 | different lines are never printed alike |
| InfoPlistStrings.SelectsBest | scripts/apple-app-i18n.ts:504-516 | the best candidate that is neither blank nor the source again is selected; when there is none, the earlier value if it was made for this source and is not blank; otherwise the source |
| InfoPlistStrings.CandidatesCount | scripts/apple-app-i18n.ts:518-528 | the candidates hold every text as often as the artifact has it for this id and source |
| InfoPlistStrings.MissingIdIsNamed | scripts/apple-app-i18n.ts:538-551 | the first entry without an id is named, and nothing is rendered |
| InfoPlistStrings.CheckMeansUnchanged | scripts/apple-app-i18n.ts:858-900 | a check passes exactly when a write would change nothing, and leaves the file as it is; an error of the write is the error of the check |
| InfoPlistStrings.SelectAgain | scripts/apple-app-i18n.ts:504-516 | selecting from a value just written for the same source gives that value again, and from one written for another source exactly when no earlier value had been taken over |
| InfoPlistStrings.LinesAgain | scripts/apple-app-i18n.ts:538-558 | rendering again from the parse of a rendering gives the same lines exactly when no entry took over an earlier value in vain |
| InfoPlistStrings.CheckAfterWrite | scripts/apple-app-i18n.ts:858-900 | after a write the check passes under exactly that condition, and otherwise calls the file stale |
| InfoPlistStrings.DistinctKeysSettle | scripts/apple-app-i18n.ts:858-900 | with distinct keys the check after a write always passes |
| InfoPlistStrings.SecondWriteSettles | scripts/apple-app-i18n.ts:858-900 | after a second write the check passes for any entries |
| InfoPlistStrings.DuplicateKeyIsStale | scripts/apple-app-i18n.ts:504-516 | a concrete file with a localizable key that is stale right after it was written |
| LineSplitter.SplitMeansLines | scripts/bench-gateway-restart.ts:973-973 | the split parts contain no line feed and join to the text with its carriage returns before line feeds removed |
| LineSplitter.ChunkContinues | scripts/bench-gateway-restart.ts:972-978 | one more chunk continues the split of what was seen before |
| LineSplitter.StreamingIsSplitting | scripts/bench-gateway-restart.ts:972-978 | for every chunking the emitted lines and the final carry are the split of the whole text |
| LineSplitter.OutputBuffers.OnChunk | scripts/bench-gateway-restart.ts:1255-1271 | a chunk of one stream extends that stream's lines and leaves the other alone |
| LineSplitter.OutputBuffers.Flush | scripts/bench-gateway-restart.ts:980-997 | the partial lines handed on, stdout first, complete the lines of each text; the buffers are then empty; without the flag nothing changes |
| PathGlob.MatchParts | scripts/check-policy-config-coverage.ts:209-232 | the matcher with its loop decides the recursive relation and terminates |
| PathGlob.MatchesIsDenotes | scripts/check-policy-config-coverage.ts:209-232 | a pattern matches exactly the paths that can be cut into one stretch for each of its parts |
| PathGlob.ConcatMatches | scripts/check-policy-config-coverage.ts:209-232 | p ++ q matches exactly the paths that split into a part matched by p and one matched by q |
| PathGlob.AdjacentStarsCollapse | scripts/check-policy-config-coverage.ts:214-224 | adjacent `**` collapse to one, anywhere in a pattern |
| PathGlob.SplitDotsConcat | scripts/check-policy-config-coverage.ts:203-207 | splitting at dots turns joining with a dot into concatenation |
| PathGlob.SplitDotsExactly | scripts/check-policy-config-coverage.ts:203-207 | the parts of a text are exactly the dotless texts that give it back when joined with dots |
| PathGlob.DottedConcatMatches | scripts/check-policy-config-coverage.ts:203-207 | the concatenation law for patterns and paths as they are written |
| CatalogAnalysis.CompareTexts | scripts/control-ui-i18n-verify.ts:108-127 | for every English key, a missing text adds the locale to the key's fallbacks and a text with other placeholders is a finding |
| CatalogAnalysis.AnalyzeLocale | scripts/control-ui-i18n-verify.ts:94-127 | one locale's findings: orphan keys, order, placeholders; and its fallbacks |
| CatalogAnalysis.AnalyzeLocales | scripts/control-ui-i18n-verify.ts:92-128 | the loop over the locales collects all findings in order, and for every English key the locales that miss it |
| CatalogAnalysis.AnalyzeControlUiCatalogs | scripts/control-ui-i18n-verify.ts:83-137 | all findings in locale order, and for every key some locale misses the sorted list of those locales |
| CatalogAnalysis.FallbacksAreExact | scripts/control-ui-i18n-verify.ts:108-136 | the fallbacks are precisely the pairs of a key and a locale that misses it |
| CatalogAnalysis.NoFindings | scripts/control-ui-i18n-verify.ts:97-126 | a locale has no finding exactly when its keys are the English keys without the missing ones, in order, and all placeholders agree |
| CatalogAnalysis.FindingsAreExact | scripts/control-ui-i18n-verify.ts:83-127 | exactly these findings are reported, for each locale: all keys English lacks, in the locale's order; that two keys have swapped places; each text with other placeholders than the English one |
| CatalogAnalysis.NoErrorsExactlyWhenClean | scripts/control-ui-i18n-verify.ts:83-137 | there is no error exactly when every locale is clean, in whatever order the locales come |

## Left out

- Strings are sequences of characters, not of UTF-16 code units; text with lone surrogates, and escapes of lone surrogates, are not part of the model.
- The Windows branches of the process runner, the text of error messages, standard error and the signal a close event reports.
- A failing `process.kill`: sending a signal to the child is an effect that always happens.
- The default action of a parent signal that arrives when no run has a handler for it: it changes nothing here.
- Output is a sequence of decoded chunks. The programs decode every chunk of bytes by itself, so a character whose bytes are split between two chunks is damaged before the modelled code sees it.
- `localeCompare` is a parameter: any comparison of two strings.
- `JSON.parse` of the envelope, and the serializers of the Apple catalog and of its contradiction report, are parameters.
- Records keyed by text are maps: the special treatment of the property name `__proto__` and of integer-like names by JavaScript objects is not modelled.
- Token counts are compared as maps instead of as sorted JSON texts, and placeholder lists as sets instead of as sorted lists.
- Which inventory entries belong to an Apple catalog, how an inflected count is written in it, and the list of required locales are parameters.
- `normalizeDeclarationEntrySource` is a parameter.
- Nested templates: a `${` inside quotes of an expression is quoted text, as the scanner reads it; Kotlin reads a nested expression there, so on such texts the tokens are the scanner's and not the language's.
- What Android itself makes of a resource file: read back means `decodeAndroidResourceValue`, which the script uses to compare and render texts again.
- An error of `resetClient` after a failed prompt, which ends the batch without a retry or a split.
- A prompt is any reply, rejection or unparsable text; delays, labels and prompt texts are not modelled, and the wording of a placeholder error is a parameter.
- Links above the repository root and deletion of directories while a reservation runs.
- Reading property lists (`parseInfoPlistStrings`) and collecting the native source ids: the entries and the ids are inputs.
- `flattenControlUiCatalog` and `splitTopLevelSegments`: flattening nested catalogs, which are flat here, and cutting Kotlin argument lists.
- `buildCells` and `summarizeResults`: the matrix of runs and its grouping into totals.
- `waitForRestartProbe`, `median` and `percentile`: polling a restarted gateway and the statistics of its timings.
- The order of the keys in the fallback record, which is a sort by locale comparison.
