# Verified model of the LocalMind control plane

LocalMind runs AI jobs on one machine. This project models the deterministic core that decides what
may run, what is kept and what leaves the system, and proves what that core promises. Database
tables are maps, a committed transaction or a locked region is one atomic step, and ids, clocks,
library calls (regular expressions, AES-GCM, base64, difflib, `json.dumps`) and model calls are
inputs. Real numbers are exact. `dafny verify dfyconfig.toml` checks everything.

Each module follows one source file or one part of it. Code that changes state is a class whose
methods are proved equal to functions on an immutable state; the properties are lemmas about those
functions, over one step or over whole runs.

| module | source | subject |
|---|---|---|
| `GpuManager` | `backend/core/gpu_manager.py` | GPU memory admission, LRU eviction, LoRA re-keying |
| `Scheduler` | `backend/core/scheduler.py` | scoring, starvation guard, round robin, hand-over to the GPU manager |
| `SecretScrubber` | `backend/core/secret_manager.py` | span merging and redaction |
| `SecretEncryption`, `SecretLifecycle` | `backend/core/secret_manager.py` | wire format; create, decrypt, rotate, revoke, purge |
| `TokenBudget`, `ToolSchema` | `backend/core/token_budget.py` | estimates, budgets, prompt compilation; schema compaction |
| `CodeEditor`, `LineNumbers` | `backend/code_editor.py` | four matching layers, line endings; numbering and its removal |
| `ArchiveGc` | `backend/core/gc.py` | archiving files and rows together |
| `Policy` | `backend/core/policy.py` | first-match evaluation, approvals and their expiry |
| `Execution` | `backend/core/execution.py` | leases, orphan reclaim, cancellation |
| `EvalScore`, `EvalRunner` | `backend/core/eval_runner.py` | JSON scoring; comparison and gate |
| `CloudBrain` | `backend/autonomy/cloud_brain.py` | hourly limit under concurrent reviews |
| `StableSort`, `Text`, `Json`, `Wrappers` | | shared: stable sorting, strings and lines, JSON values, results |
| `RoundTrip` | | the law that `ToolSchema` asks of the JSON library can be met |

## Where the code falls short of its promise

Each of these is a lemma that shows the failure. Where a condition separates the inputs on which the promise
holds, a second lemma states it exactly.

- A LoRA swap matches by key prefix, so requesting `llama3.3` takes over the slot of `llama3.3:70b`
  (`SwapCanTakeAnotherModel`; keys stay truthful exactly when the matched slot is of the requested model,
  `SwapKeepsKeysCoherent`). An adapter name can make two keys equal even without a swap
  (`AdapterCanNameAnotherModel`). `GrantedModelIff` says when a request is served by its own model, which is always
  so while all models are named `family:tag` (`TaggedModelsServeThemselves`).
- Loaded models can outgrow the card, because a release lowers the counter while its model stays loaded
  (`LoadedModelsCanExceedTotal`). They are sure to fit exactly while the counter equals their footprints
  (`FitsFromNowOnIff`), which holds until a release gives memory back (`LoadedModelsWithinTotal`,
  `ReleaseKeepsFittingIff`). The counter itself never exceeds the total.
- The starvation guard is documented as a hard ceiling but gives way to a priority lead of 900 with
  all boosts (`GuardGivesWay`), and to a lead of 1000 points in any queue (`StarvingWinsIff`).
- The round-robin cursor is advanced in first-seen order and read in the iteration order of a set. It goes
  round in first-seen order exactly when the two agree (`RoundRobinIff`). Otherwise it can stay on one workspace
  (`CursorCanStick`), exactly when serving that one favours it again (`StuckIff`), or pass others over
  (`PassedOverIff`): everyone gets a turn exactly when the favour does not come back to its start too early
  (`EveryoneFavouredIff`).
- The same-base boost of the scheduler does not imply that the GPU manager can reuse a slot (`BoostWithoutReuse`):
  the boost needs a loaded model of the family, reuse the very model (`BoostIff`, `ReuseIff`).
- An empty secret encrypts but never decrypts: its blob is refused as too short (`DecryptsWhatItEncrypted`).
- Layer 3 of the editor drops the text around a match that does not start and end on line bounds
  (`LineStartDropped`, `StrippedWindowIsExactIff`).
- Layer 2, as a function of its text, rewrites mixed line endings (`MixedEndingsRewritten`,
  `NoOpEditIsIdentityIff`); its only caller reads files with universal newlines and never passes such a text.
- A row that shares its path with another one loses its file when the other is archived, even if it was not selected
  itself (`FirstMoverTakesFile`, `RunKeepsFilesIff`).
- Completing a cancellation cancels a job in any status, requested or not (`CancelledIffCompleted`).
- The hourly review limit is checked before an awaited call and recorded after it, so `k` concurrent reviews can
  exceed it by `k - 1`, and never by more (`BoundIsReached`, `NoHourExceedsBound`). It is a promise for one review at
  a time only (`MaximumHoldsIff`).
- A candidate is promoted without regard to its results exactly when the baseline passes nothing
  (`AlwaysPromotedIff`), also over no cases at all (`EmptySuitePromotes`).
- Human review is out of reach for two runs of the same cases (`HumanReviewUnreachable`). Some outcomes lead there
  exactly when the candidate has more cases than the baseline and shares one with it (`ReviewReachableIff`,
  `AddedCaseReachesReview`).

## Model

| member | source | states |
|---|---|---|
| `GpuManager.GPUManager.AcquirePass` | backend/core/gpu_manager.py:138-199 | one locked pass of acquire: reuse, LoRA swap, allocation, eviction then allocation, or the fall-through to waiting |
| `GpuManager.GPUManager.AcquireSlot` | backend/core/gpu_manager.py:138-222 | the whole call: granted exactly up to the total, with the wait branch proved dead |
| `GpuManager.AllocationKeepsInv` | backend/core/gpu_manager.py:286-312 | registering a model that fits keeps the counter covered and within the total exactly when its footprint is not negative |
| `GpuManager.GPUManager.EvictLocked` | backend/core/gpu_manager.py:314-338 | the eviction loop drains the shortest sufficient prefix of the LRU order and deletes exactly those entries |
| `GpuManager.FindBase` | backend/core/gpu_manager.py:166-168 | the swap takes the first entry in dict order whose key has the model prefix |
| `GpuManager.VictimsAreLeastRecentlyUsed` | backend/core/gpu_manager.py:318-336 | victims and survivors partition the loaded models and no survivor was used before a victim |
| `GpuManager.VictimsAreFewest` | backend/core/gpu_manager.py:323-338 | no shorter prefix of the victims makes room, and either room is made or nothing is left |
| `GpuManager.EvictionKeepsInv` | backend/core/gpu_manager.py:314-338 | the counter stays between zero and the total and covered by the remaining footprints |
| `GpuManager.EvictionMakesRoom` | backend/core/gpu_manager.py:252-258 | eviction succeeds exactly for amounts up to the total |
| `GpuManager.ReuseKeepsAccounting` | backend/core/gpu_manager.py:150-186 | a touch or LoRA swap keeps the number of entries, their footprint and the counter |
| `GpuManager.AcquireSucceedsAtOnce` | backend/core/gpu_manager.py:138-199 | a request is granted on the first pass exactly when it is at most the total; the invariant survives exactly unless negative new memory is requested |
| `GpuManager.NoEvictionWhenItFits` | backend/core/gpu_manager.py:188-192 | a request that fits evicts nothing |
| `GpuManager.GrantedIsResident` | backend/core/gpu_manager.py:149-199 | a granted key is resident and stamped as used now |
| `GpuManager.AcquireTouchesOnlyItsKey` | backend/core/gpu_manager.py:149-199 | apart from the victims only the entry of the requested key changes or appears |
| `GpuManager.ReleaseUndoesAcquire` | backend/core/gpu_manager.py:224-243 | acquiring without eviction and releasing restores the counter |
| `GpuManager.GrantedSlotAccounts` | backend/core/gpu_manager.py:138-312 | the slot handed out names the request and carries exactly the newly loaded memory; releasing it restores the counter, also after an eviction |
| `GpuManager.GrantedRecord` | backend/core/gpu_manager.py:149-312 | what is resident after a grant: a new model as requested, or the reused slot with its size and load time |
| `GpuManager.RunKeepsInv` | backend/core/gpu_manager.py:108-258 | every run of acquire, release (also repeated) and evict keeps the invariant |
| `GpuManager.NoAcquireEverWaits` | backend/core/gpu_manager.py:195-222 | after any run from start-up no acquire waits or times out, and the counter is within the total and the loaded footprints |
| `GpuManager.AcquireFootprint` | backend/core/gpu_manager.py:138-199 | the loaded footprints after an acquire are those before, less the victims if it had to evict, plus new memory if it did not reuse |
| `GpuManager.DebtIsGivenBack` | backend/core/gpu_manager.py:108-258 | over every run the loaded footprints outgrow the counter by at most what releases gave back |
| `GpuManager.LoadedModelsWithinTotal` | backend/core/gpu_manager.py:108-258 | from start-up, until a release gives memory back, the loaded footprints equal the counter and fit the card |
| `GpuManager.FitsFromNowOnIff` | backend/core/gpu_manager.py:138-258 | no further acquire or eviction makes the loaded models outgrow the card exactly when the counter equals their footprints |
| `GpuManager.ReleaseKeepsFittingIff` | backend/core/gpu_manager.py:235-238 | a release keeps that promise exactly when it gives nothing back or the counter is zero |
| `GpuManager.LoadedModelsCanExceedTotal` | backend/core/gpu_manager.py:224-243 | three steps, for any two unrelated models and any card, after which the loaded models hold twice the total |
| `GpuManager.SwapKeepsKeysCoherent` | backend/core/gpu_manager.py:165-186 | after a swap every key names its slot exactly when the slot taken was of the requested model |
| `GpuManager.SwapCanTakeAnotherModel` | backend/core/gpu_manager.py:166-168 | from start-up, for every model and tag: the plain model is handed the slot of the tagged one under its own key |
| `GpuManager.GrantedModelIff` | backend/core/gpu_manager.py:149-199 | after a granted acquire what is resident under its key is of the requested model exactly when nothing, or a slot of that model, was reused |
| `GpuManager.AdapterCanNameAnotherModel` | backend/core/gpu_manager.py:140-157 | from start-up, for every model and tag: an adapter name makes the plain model's key that of the tagged one, whose request gets the plain model's slot |
| `Scheduler.JobScheduler.ScoreCandidates` | backend/core/scheduler.py:381-447 | each fetched node is annotated with model, score and starvation flag |
| `Scheduler.JobScheduler.ScheduleNext` | backend/core/scheduler.py:126-190 | the best candidate is returned and the cursor advanced exactly when it fits the GPU or starves |
| `Scheduler.FirstSeenInOrder` | backend/core/scheduler.py:487-487 | exactly the workspaces that occur, once each, in the order in which they first occur |
| `Scheduler.Advance` | backend/core/scheduler.py:481-493 | the cursor stands right behind the served workspace, around the end of the list, and off it when there are others |
| `Scheduler.WinnerIsBestThenOldest` | backend/core/scheduler.py:151-153 | maximal score, earliest creation among those, first fetched among those |
| `Scheduler.StarvingWinsIff` | backend/core/scheduler.py:406-447 | for any queue and boosts a starving node wins exactly when some starving node trails every other node by less than 1000 points, or by 1000 and came first |
| `Scheduler.StarvingNodeWins` | backend/core/scheduler.py:406-447 | a starving node wins unless another leads by 900 priority points or more |
| `Scheduler.GuardGivesWay` | backend/core/scheduler.py:434-442 | with all boosts on the other node the guard gives way at a priority lead of 900 |
| `Scheduler.ScheduledNodeEvictsNothing` | backend/core/scheduler.py:159-168 | acquiring what a non-starving decision asks for evicts nothing |
| `Scheduler.StarvingNodeGranted` | backend/core/scheduler.py:159-168 | a starving decision is granted at once exactly when it can fit the card at all |
| `Scheduler.ReuseIsBoosted` | backend/core/scheduler.py:413-419 | whatever the GPU manager would reuse gets the same-base boost |
| `Scheduler.BoostIff` | backend/core/scheduler.py:393-419 | over any loaded models of the form family:tag a request is boosted exactly when one of its family is loaded |
| `Scheduler.ReuseIff` | backend/core/scheduler.py:393-419 | while its model can be reused exactly when that very model is loaded, with whichever adapter |
| `Scheduler.TaggedModelsServeThemselves` | backend/core/gpu_manager.py:138-199 | over every run that asks only for family:tag models no request is served by another model |
| `Scheduler.BoostWithoutReuse` | backend/core/scheduler.py:393-419 | two tags of one family share the boost, but a slot only when equal |
| `Scheduler.RoundRobinIff` | backend/core/scheduler.py:396-493 | serving the favoured workspace favours the one first seen after it exactly when the set iterates in first-seen order and no workspace among others has the empty name |
| `Scheduler.StuckIff` | backend/core/scheduler.py:396-493 | a workspace stays favoured in every round exactly when serving it favours it again |
| `Scheduler.PassedOverIff` | backend/core/scheduler.py:396-493 | a workspace is ever favoured exactly when it is within as many rounds as there are workspaces |
| `Scheduler.EveryoneFavouredIff` | backend/core/scheduler.py:396-493 | everyone is favoured sooner or later exactly when the favour does not return to its start before as many rounds as there are workspaces |
| `Scheduler.RotatesWhenOrdersAgree` | backend/core/scheduler.py:396-401 | with agreeing orders the favour visits the workspaces one after the other, round after round |
| `Scheduler.CursorCanStick` | backend/core/scheduler.py:481-493 | of any two workspaces in swapped set order one stays favoured for ever |
| `StableSort.Ascending` | backend/core/secret_manager.py:384-384 | Python's sort yields ascending keys |
| `StableSort.Permutes` | backend/core/secret_manager.py:384-384 | and a permutation of its input |
| `StableSort.Stable` | backend/core/gpu_manager.py:318-321 | in which equal keys keep their order |
| `SecretScrubber.Scrub` | backend/core/secret_manager.py:359-417 | text, match reports and flag for any in-range non-empty matches |
| `SecretScrubber.Combine` | backend/core/secret_manager.py:386-396 | the merge loop computes the fold over sorted spans |
| `SecretScrubber.Rewrite` | backend/core/secret_manager.py:408-411 | the right-to-left rewrite equals the one-pass text of gaps and markers |
| `SecretScrubber.MergeIsDisjoint` | backend/core/secret_manager.py:386-396 | merged spans are non-empty, sorted, disjoint and inside the text |
| `SecretScrubber.MergeContainsMatches` | backend/core/secret_manager.py:386-406 | every match lies in one merged span, which carries the name of a longest match at its start |
| `SecretScrubber.MergeJoinsOnlyOverlaps` | backend/core/secret_manager.py:389-396 | every cut inside a merged span is crossed by a match |
| `SecretScrubber.MergeCoversUnion` | backend/core/secret_manager.py:386-396 | merged spans cover exactly the union of the matches |
| `SecretScrubber.ScrubbedText` | backend/core/secret_manager.py:408-411 | the result is the unmatched characters in order with one marker per merged span, and its exact length |
| `SecretEncryption.WireFormat` | backend/core/secret_manager.py:104-115 | the blob decodes to nonce, tag, ciphertext and never looks like the fallback form |
| `SecretEncryption.DecryptsWhatItEncrypted` | backend/core/secret_manager.py:83-174 | decryption inverts encryption exactly for non-empty plaintexts or the fallback form |
| `SecretEncryption.DecryptsOnlyWhatItWrites` | backend/core/secret_manager.py:119-174 | with an authentic cipher decryption yields a plaintext exactly from what encryption under that key writes for it; any other blob of that length is corrupt |
| `SecretLifecycle.NameIsCreatedOnce` | backend/core/secret_manager.py:447-482 | a creation needs a name no row of the workspace has, and until a purge no run lets the same name be created again |
| `SecretLifecycle.DecryptionsAreInvisible` | backend/core/secret_manager.py:524-557 | decryptions anywhere in a run change only times of last use and no later answer |
| `SecretLifecycle.SecretLifecycleManager.RotateSecret` | backend/core/secret_manager.py:561-634 | the old row is renamed and linked and the successor inserted, or nothing changes |
| `SecretLifecycle.RevocationIsFinalAndLocal` | backend/core/secret_manager.py:638-668 | every existing secret can be revoked; no later run decrypts it, and no other secret answers differently |
| `SecretLifecycle.RevokedIsKeptForGrace` | backend/core/secret_manager.py:638-835 | over any run a revoked secret stays, with time and reason of its revocation, exactly until a purge more than its grace period later |
| `SecretLifecycle.LastUseIsLastDecryption` | backend/core/secret_manager.py:540-557 | over any run the time of last use is that of the last decryption that was not refused |
| `SecretLifecycle.CreationIsRecorded` | backend/core/secret_manager.py:447-482 | what a creation was given stays on the row over any run |
| `SecretLifecycle.DeprecatedNamesDiffer` | backend/core/secret_manager.py:596-606 | rotations at different times leave different deprecated names |
| `SecretLifecycle.RotationAccepted` | backend/core/secret_manager.py:575-628 | a rotation succeeds exactly when the secret exists, is not revoked, can be encrypted and its deprecated name is free |
| `SecretLifecycle.RotationHandsOverName` | backend/core/secret_manager.py:603-628 | exactly one row holds the name afterwards, active, and the old one links to it |
| `SecretLifecycle.RotationCanBeRefused` | backend/core/secret_manager.py:603-616 | the uniqueness constraint can refuse a rotation |
| `SecretLifecycle.RunKeepsInv` | backend/core/secret_manager.py:447-843 | over every run names are unique per workspace, links go to later secrets, and status agrees with its time stamps |
| `SecretLifecycle.RevokedStaysRevoked` | backend/core/secret_manager.py:544-591 | after revocation no run makes the secret decrypt or rotate again |
| `SecretLifecycle.RunOnlyAdvances` | backend/core/secret_manager.py:561-668 | status never moves back and the stored value never changes |
| `SecretLifecycle.CreatedSecretDecrypts` | backend/core/secret_manager.py:447-557 | a created secret decrypts to its plaintext through any run that neither revokes nor purges it |
| `SecretLifecycle.RotatedSecretDecrypts` | backend/core/secret_manager.py:524-634 | and so does the successor made by a rotation |
| `SecretLifecycle.Chain` | backend/core/secret_manager.py:605-616 | following successors terminates |
| `SecretLifecycle.ChainAscends` | backend/core/secret_manager.py:605-616 | and visits ever later secrets, never one twice |
| `SecretLifecycle.PurgeRemovesExactly` | backend/core/secret_manager.py:814-843 | a row is purged exactly when revoked longer ago than the grace period, and is otherwise unchanged |
| `TokenBudget.Compile` | backend/core/token_budget.py:409-455 | prompt text, counts, remaining budget and truncation report |
| `TokenBudget.FitsTokensIffFitsChars` | backend/core/token_budget.py:112-115 | the estimate is within a budget exactly when the length is within its characters |
| `TokenBudget.TruncateFits` | backend/core/token_budget.py:592-609 | truncation yields a prefix within budget, cut at the allowance or after a sentence or line end past its half |
| `TokenBudget.TruncatesAtLastBreak` | backend/core/token_budget.py:592-609 | the cut is right behind the last sentence or line end beyond half of the allowance, else at the allowance, and is reported with both estimates |
| `TokenBudget.PromptLayers` | backend/core/token_budget.py:422-439 | the prompt is built layer by layer, each text under its own header, empty layers left out |
| `TokenBudget.LayersAreCounted` | backend/core/token_budget.py:239-304 | every layer is counted and budgeted by itself: no tokens exactly when empty, and at most t exactly when t tokens' worth of characters long |
| `TokenBudget.NeverTrimmedSlightly` | backend/core/token_budget.py:598-599 | the slight-trim branch is unreachable from compile |
| `TokenBudget.FinalInputWithinBudget` | backend/core/token_budget.py:414-420 | the input sent is a prefix within its budget, whole exactly when it fits |
| `TokenBudget.PromptFitsWindow` | backend/core/token_budget.py:239-304 | counts, reserved output and margin fit the window exactly when the untruncated layers do |
| `TokenBudget.BudgetBalances` | backend/core/token_budget.py:291-304 | allocated, remaining and margin add up to the window exactly in that case |
| `TokenBudget.ReservesAreTight` | backend/core/token_budget.py:239-261 | the margin is a tenth rounded up, the output between a quarter and a half of the rest, guided by the expected output |
| `ToolSchema.UnchangedIffCompact` | backend/core/token_budget.py:556-571 | compaction leaves a schema alone exactly when it has no example key and no long description |
| `ToolSchema.CompactIsCompact` | backend/core/token_budget.py:556-571 | no example key and no description over 120 characters is left at any depth |
| `ToolSchema.CompactIdempotent` | backend/core/token_budget.py:556-571 | compacting twice is compacting once |
| `ToolSchema.CompactAtPath` | backend/core/token_budget.py:556-571 | what every path shows after compaction: nothing below example keys, everything else kept |
| `ToolSchema.ScalarsAtPath` | backend/core/token_budget.py:559-571 | a description over 120 characters keeps its first 117 and three dots; every other text, number and constant is kept |
| `ToolSchema.CompactNeverGrows` | backend/core/token_budget.py:573-574 | the serialised schema never gets longer |
| `ToolSchema.ToolTextGrowth` | backend/core/token_budget.py:543-574 | the text does not grow if re-serialising its schema would not make it grow; exact when nothing is to compact |
| `ToolSchema.CompactIsReadable` | backend/core/token_budget.py:556-571 | compaction keeps keys distinct at every depth, so its result can be written and read back |
| `ToolSchema.CompactToolsIdempotent` | backend/core/token_budget.py:543-574 | compacting a tool text again changes nothing, plain lists and malformed JSON included |
| `CodeEditor.ApplySearchReplace` | backend/code_editor.py:538-599 | the four layers in order |
| `CodeEditor.FindFuzzyWindow` | backend/code_editor.py:571-592 | the fuzzy loop over all windows of the file |
| `CodeEditor.VerbatimMatchWins` | backend/code_editor.py:541-543 | a verbatim match has its first occurrence replaced and nothing else changed |
| `CodeEditor.WindowOfMatch` | backend/code_editor.py:558-565 | counting newlines before a match gives a window of lines inside the text that frames the match |
| `CodeEditor.StrippedWindowFits` | backend/code_editor.py:556-565 | the layer 3 window is inside the file, its inner lines equal the search lines, its edges end and start with theirs |
| `CodeEditor.StrippedWindowIsExactIff` | backend/code_editor.py:559-565 | the window is the search lines alone exactly when the match is on line bounds |
| `CodeEditor.LineStartDropped` | backend/code_editor.py:556-568 | a text whose line start layer 3 drops |
| `CodeEditor.LineEditKeepsOtherLines` | backend/code_editor.py:564-568 | layers 3 and 4 keep all lines outside the window in order |
| `CodeEditor.BestIsEarliestMaximum` | backend/code_editor.py:575-588 | the fuzzy loop finds the earliest window of maximal similarity |
| `CodeEditor.FuzzyFailsIff` | backend/code_editor.py:579-599 | the fuzzy layer gives up exactly when no window reaches the threshold |
| `CodeEditor.FuzzyWindowIsBest` | backend/code_editor.py:571-592 | the window of layer 4 has the length of the trimmed search text, reaches the threshold, and is the first of the most similar ones |
| `CodeEditor.SecondLayerDecides` | backend/code_editor.py:545-553 | without a verbatim match the first normalised match is replaced in place, on uniform line endings |
| `CodeEditor.ThirdLayerDecides` | backend/code_editor.py:556-568 | without those a window that matches up to trailing white space gives way to the replacement |
| `CodeEditor.FourthLayerDecides` | backend/code_editor.py:571-595 | without those the best window gives way to the replacement |
| `CodeEditor.ApplyFailsIff` | backend/code_editor.py:538-599 | the edit fails exactly when nothing occurs verbatim, normalised or stripped and no window is similar enough |
| `CodeEditor.NormalisedEditIsLocal` | backend/code_editor.py:545-553 | on uniform line endings layer 2 changes only the first normalised match, byte for byte |
| `CodeEditor.NoOpEditIsIdentityIff` | backend/code_editor.py:546-553 | replacing a match by itself is the identity exactly on uniform line endings |
| `CodeEditor.MixedEndingsRewritten` | backend/code_editor.py:545-553 | a text with mixed line endings that such a replacement changes |
| `CodeEditor.LooseEditsKeepCrLf` | backend/code_editor.py:545-595 | with CRLF content every result of layers 2 to 4 has a CR before each LF |
| `Text.DosUnixRoundTrip` | backend/code_editor.py:547-551 | normalising and restoring line endings is the identity exactly when every LF follows a CR |
| `LineNumbers.NumberedPreview` | backend/code_editor.py:305-312 | the numbered preview with its closing line |
| `LineNumbers.StripLineNumbers` | backend/code_editor.py:436-447 | every line loses its number prefix |
| `LineNumbers.StripUndoesNumber` | backend/code_editor.py:309-443 | stripping a numbered line gives the line back, whatever it looks like |
| `LineNumbers.NumbersShown` | backend/code_editor.py:307-310 | the line at position i carries the number i + 1, right-aligned in four columns |
| `LineNumbers.PreviewLimit` | backend/code_editor.py:305-312 | the first 500 lines are shown, and the closing line says how many are not |
| `LineNumbers.PreviewRoundTrip` | backend/code_editor.py:305-447 | stripping a preview gives back the lines shown, the whole content when it is short enough |
| `ArchiveGc.GarbageCollector.ArchiveOldArtifacts` | backend/core/gc.py:855-888 | the loop over fetched rows with its counters |
| `ArchiveGc.MoveLosesNothingIff` | backend/core/gc.py:866-873 | a move loses no file exactly when its destination is free |
| `ArchiveGc.ArchiveKeepsContents` | backend/core/gc.py:855-888 | every row with a file of its own keeps its content, no file is lost, every fetched row whose file exists is moved or reported |
| `ArchiveGc.ArchiveRun` | backend/core/gc.py:842-888 | the same over the result of the query; ineligible rows are unchanged |
| `ArchiveGc.OtherFilesUnchanged` | backend/core/gc.py:855-888 | files that no selected row points to stay put |
| `ArchiveGc.ArchivedIntoJobDir` | backend/core/gc.py:860-881 | a selected row that has its file ends up in the archive directory of its job unless its move fails |
| `ArchiveGc.ArchiveCounts` | backend/core/gc.py:855-888 | a run reports exactly the moves that succeeded, their bytes, and the moves that failed |
| `ArchiveGc.FailedStays` | backend/core/gc.py:872-888 | a row whose move fails keeps its path and its file |
| `ArchiveGc.TokenBeforeSuffix` | backend/core/gc.py:866-870 | a colliding name gets the random token before its suffix, or at its end when it has none |
| `ArchiveGc.FreeNameKept` | backend/core/gc.py:860-870 | a file keeps its name exactly when that name is free in the directory of its job |
| `ArchiveGc.RunsKeepContents` | backend/core/gc.py:811-910 | any number of runs keeps every row on its content |
| `ArchiveGc.RearchivingRenames` | backend/core/gc.py:866-870 | a file already archived takes the collision branch and moves to a new name |
| `ArchiveGc.MoveKeepsFilesIff` | backend/core/gc.py:866-881 | one move leaves every row its file exactly when no other row has the same path |
| `ArchiveGc.RunKeepsFilesIff` | backend/core/gc.py:855-881 | a run leaves every row its file, with its content, exactly when no moved item shares its path with another row, selected or not |
| `ArchiveGc.FirstMoverTakesFile` | backend/core/gc.py:855-881 | of all rows with one path exactly the first one moved keeps the file; the others dangle |
| `ArchiveGc.AdoptedFileIsTakenAway` | backend/core/gc.py:855-881 | a destination where a row misses its file: that row adopts the file and, if moved later, leaves the owner without |
| `Policy.PolicyEngine.Evaluate` | backend/core/policy.py:360-462 | the first applicable policy decides, an approval is created exactly when it asks for one, and a failed load allows |
| `Policy.PendingForItsMinutes` | backend/core/policy.py:548-621 | an approval on which nobody decides is pending for exactly its minutes and then expired, whatever else happens |
| `Policy.SweepIsCheckingAll` | backend/core/policy.py:594-688 | the sweep does what checking every approval does, in any order, and a check answers what the sweep would store |
| `Policy.SweepsAreInvisible` | backend/core/policy.py:594-688 | sweeps anywhere in a run never change what any call returns |
| `Policy.SettledIsFinal` | backend/core/policy.py:594-688 | an approval that left pending never changes |
| `Policy.DecisionsPrecedeExpiry` | backend/core/policy.py:636-654 | decisions are recorded only before expiry |
| `Policy.DecisionAcceptedIff` | backend/core/policy.py:623-662 | a decision is accepted exactly while the approval is pending and unexpired, and is seen by the next check |
| `Policy.DecisionIsRecorded` | backend/core/policy.py:636-662 | an accepted decision is recorded with who, when and why over any run, and touches no other approval |
| `Policy.CreationIsRecorded` | backend/core/policy.py:548-592 | an approval keeps what its creation asked for over any run |
| `Execution.SilentAfterAcquire` | backend/core/execution.py:717-845 | a worker silent since acquiring holds no job and is found dead exactly once the timeout has passed, whatever others do |
| `Execution.SilentAfterHeartbeat` | backend/core/execution.py:767-845 | the same since a heartbeat, with the job it reported, if the lease was active; otherwise it is never found dead |
| `Execution.ReleasedIsNeverDead` | backend/core/execution.py:797-845 | until it acquires again a released worker is never found dead and has no job to reclaim |
| `Execution.ExecutionStore.ClaimOrphanedJobs` | backend/core/execution.py:869-918 | the reclaim loop over the listed workers |
| `Execution.RequestedNeverRunsAgain` | backend/core/execution.py:1089-1163 | a requested job is cancelling until completed and cancelled after that; no reclaim brings it back |
| `Execution.CancellingIffRequested` | backend/core/execution.py:1101-1112 | over any run a pending or running job starts cancelling exactly when a request names it |
| `Execution.SparedJobsUnchanged` | backend/core/execution.py:869-1163 | a job that no operation names and no reclaim finds is left exactly as it was, its time of update included |
| `Execution.CancellationIsRecorded` | backend/core/execution.py:1101-1163 | a request or completion is recorded with its time and stays so while the job is spared |
| `Execution.LoopIsSimultaneous` | backend/core/execution.py:875-912 | the reclaim loop is one simultaneous update |
| `Execution.ClaimOrderIrrelevant` | backend/core/execution.py:875-912 | order and repetition of workers do not matter |
| `Execution.ClaimChangesExactly` | backend/core/execution.py:886-898 | exactly the running jobs held by listed workers become pending, and all of those are reported |
| `Execution.ReclaimedAreHeld` | backend/core/execution.py:886-898 | the reported ids are exactly the jobs that listed workers held |
| `Execution.ReaperFinishes` | backend/core/execution.py:815-918 | reclaiming what was found dead leaves nothing dead and touches no other lease |
| `Execution.RunKeepsIdle` | backend/core/execution.py:717-912 | over any interleaving a lease that is not active holds no job |
| `Execution.InactiveIgnoresHeartbeats` | backend/core/execution.py:769-780 | a lost lease ignores heartbeats until it is acquired again |
| `Execution.CancellationIsFinal` | backend/core/execution.py:1089-1163 | cancelling moves only to cancelled, by completion, and cancelled is absorbing |
| `Execution.CancelledIffCompleted` | backend/core/execution.py:1141-1163 | over any run a job ends cancelled exactly when it was so before or is completed in it, requested or not; finished jobs are otherwise left alone |
| `EvalScore.ScoreJsonMatch` | backend/core/eval_runner.py:128-198 | the recursive scorer |
| `EvalScore.ScoreObjects` | backend/core/eval_runner.py:155-166 | the loop over the union of keys, in any order |
| `EvalScore.ScoreLists` | backend/core/eval_runner.py:168-179 | the loop over indices up to the longer list |
| `EvalScore.ScoreInRange` | backend/core/eval_runner.py:128-198 | scores lie in [0, 1] |
| `EvalScore.ScoreReflexive` | backend/core/eval_runner.py:128-198 | a value scores 1 against itself |
| `EvalScore.ScoreSymmetric` | backend/core/eval_runner.py:128-198 | the score is symmetric if text similarity is |
| `EvalScore.TypeMismatchCapped` | backend/core/eval_runner.py:151-153 | different types never score above one half |
| `EvalScore.ObjectsCapped` | backend/core/eval_runner.py:155-166 | objects score at most the share of common keys: full marks need the same keys, no common key scores nothing |
| `EvalScore.OneKeyCounts` | backend/core/eval_runner.py:155-166 | changing the value of one expected key changes the score by that value's difference, divided among all keys |
| `EvalScore.ListsCapped` | backend/core/eval_runner.py:168-179 | lists score at most the shorter length over the longer: full marks need equal lengths |
| `EvalScore.OneItemCounts` | backend/core/eval_runner.py:168-179 | changing one item changes the score by that item's difference, divided among all positions |
| `EvalScore.NumberTolerance` | backend/core/eval_runner.py:185-194 | numbers get full marks below one percent of the larger magnitude, 0.8 below ten percent, else nothing |
| `EvalRunner.StatusMap` | backend/core/eval_runner.py:623-629 | the lookup map of one run |
| `EvalRunner.CompareConfigs` | backend/core/eval_runner.py:623-668 | regressions, improvements and recommendation |
| `EvalRunner.StatusesPartition` | backend/core/eval_runner.py:460-464 | passed, failed and partial add up to the total |
| `EvalRunner.SummaryRates` | backend/core/eval_runner.py:460-466 | the rates times the number of cases give back passes and points, and are zero without cases |
| `EvalRunner.AverageBracketsPassRate` | backend/core/eval_runner.py:460-558 | average score and pass rate of a run bound each other through the thresholds, model failures included |
| `EvalRunner.PassesBalance` | backend/core/eval_runner.py:631-641 | candidate passes = baseline passes - regressions + improvements |
| `EvalRunner.HumanReviewUnreachable` | backend/core/eval_runner.py:643-652 | on the same cases: promoted, and through the gate, exactly without regressions, and then the pass rate does not fall |
| `EvalRunner.ReviewReachableIff` | backend/core/eval_runner.py:617-652 | over two case lists some outcomes lead to human review exactly when the candidate has more cases and shares one with the baseline |
| `EvalRunner.AddedCaseReachesReview` | backend/core/eval_runner.py:617-652 | any case added to any non-empty suite makes human review reachable |
| `EvalRunner.AlwaysPromotedIff` | backend/core/eval_runner.py:617-652 | every candidate is promoted against a baseline exactly when that baseline passes nothing |
| `EvalRunner.EmptySuitePromotes` | backend/core/eval_runner.py:438-446 | in particular a comparison over no cases is promoted |
| `CloudBrain.CloudBrainSupervisor.RateLimited` | backend/autonomy/cloud_brain.py:147-155 | pruning and the limit test |
| `CloudBrain.CloudBrainSupervisor.DoReview` | backend/autonomy/cloud_brain.py:180-255 | the guards in order: unavailable, limited, cached, then the call and its record |
| `CloudBrain.PrunedListSuffices` | backend/autonomy/cloud_brain.py:149-155 | the pruned list answers like the full history |
| `CloudBrain.HistoryIsSuccesses` | backend/autonomy/cloud_brain.py:197-255 | over any run exactly the successful calls are recorded, in order |
| `CloudBrain.StartsIff` | backend/autonomy/cloud_brain.py:147-200 | a call starts exactly when nothing is cached and the hour has room |
| `CloudBrain.NoHourExceedsBound` | backend/autonomy/cloud_brain.py:147-248 | with at most k reviews in flight no hour holds more than the maximum plus k - 1 |
| `CloudBrain.SequentialReviewsRespectMaximum` | backend/autonomy/cloud_brain.py:147-248 | one at a time, no hour exceeds the maximum |
| `CloudBrain.BoundIsReached` | backend/autonomy/cloud_brain.py:147-248 | for every maximum and every k a run in which one hour holds the maximum plus k - 1 |
| `CloudBrain.MaximumHoldsIff` | backend/autonomy/cloud_brain.py:147-248 | the hourly maximum holds in every run with k in flight exactly when k is at most 1 or nothing may run |

## Left out

- Waiting in `acquire`: its outcome `MustWait` stands for the event, deadline and timeout code, which is proved unreachable for non-negative requests.
- GPU model slots are values inside the manager's list, not separate objects; no reference to one leaves the manager.
- Floating-point rounding: token ratios, scores, pass rates and elapsed times are exact; infinities and NaN, which Python's JSON reader accepts, are not values of the model.
- Database connections, schema migrations, foreign keys of other tables and failures between two statements of one transaction; for the archive also a failing row update after a successful move.
- Instants are integers; ISO texts compare like the instants they denote. Each policy operation reads the clock once.
- SecretLifecycle.PurgeRemovesExactly: rows referenced by provider configurations, whose foreign key would refuse the deletion, are not modelled.
- ArchiveGc.ArchiveKeepsContents: the random eight-digit suffix is taken to be unused, and no destination is where a row fetched later misses its file; `MoveLosesNothingIff` and `AdoptedFileIsTakenAway` say what happens otherwise. Symbolic links and aliasing paths are not modelled.
- Policy.SweepsAreInvisible: the number that a sweep returns does depend on earlier checks and is not part of the observation.
- Execution.CancellationIsFinal: the move of the job directory to the recycle bin and job status writes by other modules are not modelled.
- ToolSchema.CompactNeverGrows: compares serialised schemas; the incoming text itself may be shorter, since `json.dumps` escapes non-ASCII characters (`ToolTextGrowth` says when the result still does not grow).
- TokenBudget.PromptFitsWindow: section headers are not counted by the program either, so the bound is on its token counts.
- Input filters, retry prompts and usage tracking of the token budget; pattern conditions and built-in checks of the policy engine, whose verdict is an input; secret hygiene reports and start-up scanning.
- The malformed-JSON fallback of the editor, syntax validation and backups; file reading and its newline translation.
- Model, network and notification calls, the front end and the remaining modules: no state machine to prove anything about, or only easy members.
