# Verification of the router's stateful components

This project models seven stateful components of the router in Dafny and proves
what they promise over every input, every run or every interleaving. Where the
code keeps a promise only under a condition, the condition is proved to be exact:
the property holds if and only if it is met.

| file | component |
|---|---|
| `RateLimiter.dfy` | the in-memory sliding-window rate limiter and its sweep |
| `ModelNames.dfy` | the ordered-set algebra on model-name lists |
| `UpstreamSync.dfy`, `UpstreamTheorems.dfy`, `UpstreamRuns.dfy` | detecting, staging, applying and ignoring upstream model changes |
| `ChannelScan.dfy` | the batched scans that check or apply for every enabled channel |
| `MultiKey.dfy`, `MultiKeyTheorems.dfy` | multi-key channels: keys, statuses, deletion, appending, the status listing |
| `MultiKeyPurge.dfy`, `MultiKeyRuns.dfy`, `MultiKeyStale.dfy` | bulk against repeated deletion, runs of actions, overlapping requests |
| `BodyStorage.dfy`, `RequestBody.dfy` | request bodies in memory or on disk, their counters, and the storage cached on a request |
| `DiskAccounting.dfy` | the disk counters under concurrency, one atomic operation at a time |
| `OggScanner.dfy` | the Ogg page scanner behind Opus durations |
| `VerificationStore.dfy` | the expiring store of verification codes |
| `RedisCodec.dfy` | structs stored as Redis hashes |
| `Text.dfy` | trimming, joining and splitting; what survives being stored as one text |
| `Wrappers.dfy`, `Numbers.dfy` | the value that may be missing; bytes, integer bounds and sums |

`dafny verify dfyconfig.toml` checks everything.

## How it is modelled

Objects with mutable fields are classes whose methods follow the code's own
branches and loops. Each method's postcondition ties its result and the new state
to a function of the old state, and the theorems are lemmas about that function
and about runs of it. Clocks, fetching, regular expressions, time parsing and
failing writes are parameters. A database row is a value; an action loads it,
works on a copy and writes it back in one update, or leaves it when the write
fails. The two lists a channel stores as text (models joined by `,`, keys joined
by a line break) are kept as text, so everything below holds of what is read back.

## What the code does that a reader may not expect

- A key whose sweep age is shorter than its duration less one second can be
  forgotten while its requests still count (`RateLimiter.FaithfulExactly`). The
  comment in `common/constants.go:220-221` asks for slightly more than is needed.
  A limit of 0 behaves like a limit of 1.
- Adding a staged model takes its name off the ignore list. When the name is also
  an ignore pattern, what the pattern suppressed is proposed next time
  (`UpstreamTheorems.AddedPatternReveals`); which ignored names can come back, in
  some run, is `UpstreamRuns.StaysShelvedExactly`. An upstream name with a comma is
  stored as its pieces, is proposed again in every round for ever
  (`UpstreamTheorems.FoundForEverExactly`), and can leave a model staged
  (`UpstreamTheorems.AddedPieceStaysStaged`).
- `delete_disabled_keys` on a channel whose keys are all automatically disabled
  reports success, keeps every key, and enables them all, because an empty key text
  is not written while the emptied status maps are
  (`MultiKeyTheorems.PurgeOfAllRevives`).
- Deleting a key so that a blank key comes first or last can move the statuses onto
  the wrong keys (`MultiKeyTheorems.DeleteKeyMisaligns`). On a channel with a blank
  key between others, or with no key text, some run leaves a time past the last key
  (`MultiKeyRuns.AlignedExactly`).
- Deleting the automatically disabled keys at once and one at a time can leave
  different records when nothing, or nothing but blank keys, survives
  (`MultiKeyPurge.PurgeIsRepeatedDeletionExactly`).
- The channel is loaded before its lock is taken, so of two overlapping requests the
  second undoes the first (`MultiKeyStale.StaleUndoes`): an automatic disabling or a
  deletion is lost (`MultiKeyStale.StaleOtherKeyExactly`,
  `MultiKeyStale.StaleUndoesDelete`), and a status report that overlaps a deletion
  leaves a wrong number of keys recorded (`MultiKeyStale.StaleReportMiscounts`).
- The disk quota is checked against the announced length, which decompression leaves
  as it was (`RequestBody.AnnouncedTooShort`), and before anything is counted, so
  overlapping creations can together exceed it (`DiskAccounting.QuotaExactly`).
- A struct of which only a deletion time would be stored is not found again
  (`RedisCodec.DeletionTimeNotFound`).

## Model

| member | source | states |
|---|---|---|
| RateLimiter.InMemoryRateLimiter.Request | common/rate-limit.go:45-70 | admits an absent key, a queue that is not full, or a full queue whose oldest time is a duration old; the queue drops its oldest time only in the last case |
| RateLimiter.InMemoryRateLimiter.ClearExpiredItems | common/rate-limit.go:28-42 | one sweep keeps exactly the keys whose newest time, in seconds, is no more than the expiration, in nanoseconds, ago |
| RateLimiter.RefinesFullHistory | common/rate-limit.go:28-70 | after any interleaving of requests and sweeps, the times admitted for a key are those a limiter with unbounded memory admits given that key's requests alone; the sweep age must be at least the duration less one second, or nothing be swept |
| RateLimiter.DecisionExact | common/rate-limit.go:45-70 | under the same condition, at any point of any run a request is admitted if and only if fewer than the limit of all requests ever admitted for its key are less than a duration old, that is, the one the limit back is at least a duration old |
| RateLimiter.AdmittedSpaced | common/rate-limit.go:33-38 | under the same condition no window of one duration holds more than the limit of admitted requests, even across deletion and re-creation of the key |
| RateLimiter.QueuesBounded | common/rate-limit.go:49-68 | every stored queue is non-empty, sorted and within the limit, in every run |
| RateLimiter.FaithfulExactly | common/rate-limit.go:15-42 | the limiter equals the full-history limiter on all runs if and only if its expiration is not positive, so that it never sweeps, or at least the duration less one second |
| RateLimiter.SweepForgets | common/rate-limit.go:28-42 | for any longer duration, a run in which a sweep lets one request too many through |
| ModelNames.NormalizeShape | controller/channel_upstream_update.go:93-98 | a normalised list holds exactly the trimmed non-blank names, each once |
| ModelNames.NormalizeFixed | controller/channel_upstream_update.go:93-98 | normalising leaves a list alone if and only if it is trimmed, non-blank and duplicate-free |
| ModelNames.NormalizeOrder | controller/channel_upstream_update.go:93-98 | normalised names stand in the order in which the input first mentions them |
| ModelNames.Merge | controller/channel_upstream_update.go:100-114 | the loop appends to the normalised base exactly the new names, in order |
| ModelNames.MergedIsConcatenation | controller/channel_upstream_update.go:100-114 | merging is normalising the concatenation |
| ModelNames.MergedAssociative | controller/channel_upstream_update.go:100-114 | merging is associative |
| ModelNames.ApplySelectedMembers | controller/channel_upstream_update.go:138-143 | the result is (origin + add) less (remove less add), in normal form |
| ModelNames.ApplySelectedExact | controller/channel_upstream_update.go:138-143 | surviving origin names first in their order, then the new names in theirs; a name both added and removed stays |
| ModelNames.SelectionOrder | controller/channel_upstream_update.go:116-136 | intersections and differences stand in the order of their first list |
| UpstreamSync.Channel.CheckAndPersist | controller/channel_upstream_update.go:377-424 | skips, fails or succeeds by the interval, the fetch, the write and the update of the abilities; the row afterwards and the counts reported |
| UpstreamSync.Channel.ApplyUpdates | controller/channel_upstream_update.go:820-868 | the row after a selection is applied, the four lists returned, whether the models changed and whether the abilities failed to follow; a failed write leaves the row |
| UpstreamSync.PendingAddExact | controller/channel_upstream_update.go:206-220 | proposed additions are exactly the upstream names that are not models, not redirect targets and not ignored |
| UpstreamSync.PendingAddListed | controller/channel_upstream_update.go:172-220 | the same spelled out, patterns included, and in upstream's order |
| UpstreamSync.PendingRemoveExact | controller/channel_upstream_update.go:221-229 | proposed removals are exactly the models that are neither upstream nor redirect sources |
| UpstreamSync.PendingRemoveOrder | controller/channel_upstream_update.go:221-230 | the models proposed for removal stand in the order of the models |
| UpstreamSync.StoredModels | controller/channel_upstream_update.go:845 | a stored list is read back as the pieces of its names, and unchanged when it is normal and comma-free |
| UpstreamSync.AdoptedModels | controller/channel_upstream_update.go:401-409 | auto-sync appends everything found, and nothing found is already a model |
| UpstreamTheorems.CheckInterval | controller/channel_upstream_update.go:383-393 | an unforced check less than the interval after the recorded time changes nothing; any other is made as a forced one and records its time |
| UpstreamRuns.ChecksApart | controller/channel_upstream_update.go:383-393 | so in every run whose clock does not go back, whatever happens in between |
| UpstreamTheorems.CheckFrame | controller/channel_upstream_update.go:392-413 | what no check touches, and that a failed fetch changes only the time |
| UpstreamTheorems.CheckStagesExact | controller/channel_upstream_update.go:392-413 | what a check stages, in terms of the upstream names, the models, the ignore entries with their patterns, and the model mapping |
| UpstreamTheorems.CheckAnswerExact | controller/channel_upstream_update.go:401-423 | a failed write or rebuild of the abilities is reported exactly when it matters, and the number reported is the number of models gained, for comma-free names |
| UpstreamTheorems.SelectionsExact | controller/channel_upstream_update.go:836-855 | which names are added, ignored, removed and left staged |
| UpstreamTheorems.SelectionsOrder | controller/channel_upstream_update.go:836-855 | in which order these lists stand: selections as selected, the others as they were, newly ignored names last |
| UpstreamTheorems.ApplyFrame | controller/channel_upstream_update.go:842-861 | an application records its time and rewrites the models only when they change |
| UpstreamTheorems.CheckKeepsStaging | controller/channel_upstream_update.go:392-413 | every check, adopting or not, keeps staged additions outside the models, staged removals inside them, the two disjoint, and all lists normal, for any upstream list |
| UpstreamTheorems.ApplyKeepsStagingExactly | controller/channel_upstream_update.go:833-856 | any selection keeps that invariant if and only if no comma-separated piece of an added name is still staged |
| UpstreamTheorems.AddedPieceStaysStaged | controller/channel_upstream_update.go:841-855 | a concrete selection that breaks it |
| UpstreamTheorems.AppliedModels | controller/channel_upstream_update.go:841-846 | which models a channel has after an application |
| UpstreamTheorems.AppliedOrder | controller/channel_upstream_update.go:841-846 | for comma-free additions the stored models are the selected change in its order |
| UpstreamTheorems.ApplyConserves | controller/channel_upstream_update.go:836-855 | staged additions split into added, ignored and remaining, staged removals into removed and remaining, with no name lost or doubled |
| UpstreamTheorems.ConvergesExactly | controller/channel_upstream_update.go:377-868 | after everything a forced check finds is adopted, or staged and applied, a second detection finds nothing if and only if no found name has a comma and, unless the check adopts, no suppression rests only on ignore entries that were themselves found |
| UpstreamTheorems.FoundForEverExactly | controller/channel_upstream_update.go:172-231 | a name that is found is found again in every round of detecting and applying on the same upstream list if and only if it has a comma |
| UpstreamTheorems.CommaExample | controller/channel_upstream_update.go:845 | a concrete channel that does not converge after any number of rounds |
| UpstreamTheorems.PlainNamesConverge | controller/channel_upstream_update.go:172-231 | upstream names without commas and without the regex prefix always converge in one step, adopted or applied, whatever the redirects and ignore list |
| UpstreamTheorems.AddedPatternReveals | controller/channel_upstream_update.go:848-851 | a concrete channel on which one step does not converge |
| UpstreamRuns.RunStagedExactly | controller/channel_upstream_update.go:377-868 | the staging invariant holds throughout a run of checks and selections with failing writes if and only if every application in it keeps the pieces of added names apart from what stays staged |
| UpstreamRuns.RunKeepsGood | controller/channel_upstream_update.go:377-868 | it holds in every run whose upstream names and staged names have no commas |
| UpstreamRuns.IgnoringLeavesAlone | controller/channel_upstream_update.go:848-855 | under the staging invariant, a name ignored and not added is on the ignore list and not staged; it is no model if and only if it is not a piece of an added name |
| UpstreamRuns.StaysShelvedExactly | controller/channel_upstream_update.go:172-231 | from the staging invariant with no commas in staged names, and for one meaning of the patterns, an ignored name stays ignored and is never staged in every run without commas in upstream names, if and only if it is one of a set of ignored unstaged names each of which has a comma or is suppressed by one of the set |
| UpstreamRuns.RunLeavesAlone | controller/channel_upstream_update.go:189-219 | in those runs such a name is not adopted as a model either |
| UpstreamRuns.PlainNamesEntrenched | controller/channel_upstream_update.go:189-204 | an ignored, unstaged name without the regex prefix is always such a name |
| ChannelScan.ChannelTable.ApplyAll | controller/channel_upstream_update.go:894-964 | for every batch size the scan applies the staged changes of each enabled channel exactly once, in id order, as one full query would, and reports results, failures and totals; when a query fails it reports nothing, and the channels of the batches before are applied |
| ChannelScan.ChannelTable.RunUpdateTaskOnce | controller/channel_upstream_update.go:555-680 | the same for the checking task with its counts, channel summaries and samples of names, and when it is cancelled or a query fails, for the channels up to that point |
| ChannelScan.Resume | controller/channel_upstream_update.go:874-885 | the query after an id of the list continues the list |
| ChannelScan.QueryIgnoresWrites | controller/channel_upstream_update.go:584-600 | what the scan writes behind its cursor does not change later batches |
| ChannelScan.ScanOrder | controller/channel_upstream_update.go:874-885 | the list a scan works through holds each enabled channel once, by increasing id |
| ChannelScan.CheckReportCounts | controller/channel_upstream_update.go:610-647 | the summary counts every enabled channel, and its parts are consistent |
| ChannelScan.CheckReportExact | controller/channel_upstream_update.go:610-647 | exactly the failed channels, the summaries of exactly the channels with something staged or adopted, and as samples exactly the staged names, each once |
| ChannelScan.CheckedRowsExactly | controller/channel_upstream_update.go:615-627 | the rows the task leaves: checked for the channels that take part and whose write succeeds, all others as they were |
| ChannelScan.CheckFailsExactly | controller/channel_upstream_update.go:377-424 | when a channel counts as failed: it was due, and the write, the fetch or a needed rebuild of the abilities fails |
| ChannelScan.AutoAddedExactly | controller/channel_upstream_update.go:401-408 | when names are adopted, and that the number counted is that of the models gained, for comma-free names |
| ChannelScan.FailedInOrder | controller/channel_upstream_update.go:602-627 | failed channels are reported once each, by increasing id |
| ChannelScan.ApplyReportExact | controller/channel_upstream_update.go:919-944 | exactly the failed channels, exactly the others that had something staged, and the totals |
| ChannelScan.AppliedEntryExact | controller/channel_upstream_update.go:919-944 | what is listed for each channel |
| ChannelScan.ApplyFailsExactly | controller/channel_upstream_update.go:842-866 | applying fails when the write does, or when the abilities cannot be rebuilt and a staged addition is new or a staged removal takes a model away |
| ChannelScan.AppliedInOrder | controller/channel_upstream_update.go:906-944 | failed and applied channels are reported once each, by increasing id |
| ChannelScan.RefreshExactly | controller/channel_upstream_update.go:927-953 | the caches are refreshed if and only if the models of a listed channel changed |
| ChannelScan.ApplyAllDrains | controller/channel_upstream_update.go:906-944 | a participating channel whose write succeeds has nothing staged afterwards if and only if no name was staged both ways |
| MultiKey.MultiKeyChannel.Update | model/channel.go:550-597 | writes the keys unless the text is empty, counts them again and drops the statuses past them |
| MultiKey.MultiKeyChannel.DisableKey | controller/channel.go:1584-1625 | error cases and the row after one key is disabled |
| MultiKey.MultiKeyChannel.EnableKey | controller/channel.go:1627-1667 | error cases and the row after one key is enabled |
| MultiKey.MultiKeyChannel.EnableAllKeys | controller/channel.go:1669-1691 | the row after all keys are enabled and the count reported |
| MultiKey.MultiKeyChannel.DisableAllKeys | controller/channel.go:1693-1738 | the row after all enabled keys are disabled; nothing is written when there are none |
| MultiKey.MultiKeyChannel.DeleteKey | controller/channel.go:1740-1818 | error cases, the refusal to delete the last key, and the re-indexed row |
| MultiKey.MultiKeyChannel.DeleteDisabledKeys | controller/channel.go:1820-1887 | the count deleted and the re-indexed row |
| MultiKey.MultiKeyChannel.GetKeyStatus | controller/channel.go:1470-1582 | the records with previews of their keys, filtered by status, cut into pages, with the three totals |
| MultiKey.MultiKeyChannel.AppendKeys | controller/channel.go:957-1034 | the key text sent to the update is the existing keys followed by the new ones |
| MultiKey.MultiKeyChannel.ReportStatus | model/channel.go:665-728 | what a failing or recovering key records, at the first position of that key, and the status, reason and time of the channel itself |
| MultiKey.MultiKeyChannel.Manage | controller/channel.go:1469-1896 | every action is one step of the runs below |
| MultiKeyTheorems.DeleteKeyExactly | controller/channel.go:1758-1805 | what is read back has exactly one record less if and only if the first and last remaining keys are not empty |
| MultiKeyTheorems.LastKeyExactly | controller/channel.go:1764-1798 | a deletion is refused for exactly the only key |
| MultiKeyTheorems.DeleteSlots | controller/channel.go:1764-1790 | status, time and reason of the later keys move down by one position, also those not shown |
| MultiKeyTheorems.DeleteKeyMisaligns | controller/channel.go:1801-1807 | a concrete channel on which deleting one key enables another |
| MultiKeyTheorems.PurgeExactly | controller/channel.go:1820-1873 | what is read back is exactly the records not disabled automatically, in order, if and only if a key remains and the end keys are not empty |
| MultiKeyTheorems.PurgeSlots | controller/channel.go:1828-1858 | what is recorded of the kept keys moves down, and what is left of enabled keys is forgotten |
| MultiKeyTheorems.PurgeOfAllRevives | controller/channel.go:1860-1875 | when every key was disabled automatically the keys all stay and are all enabled |
| MultiKeyPurge.PurgeIsRepeatedDeletionExactly | controller/channel.go:1740-1873 | bulk deletion and deleting the same keys one at a time from the highest position, with the refusals of a single deletion, leave the same records if and only if there is nothing to delete or a key that is not blank survives |
| MultiKeyPurge.BothLeaveSurvivors | controller/channel.go:1740-1873 | when the first and last survivors are not blank, both leave exactly the survivors |
| MultiKeyPurge.PurgeWithBlankSurvivor | controller/channel.go:1860-1873 | a concrete channel on which the two differ |
| MultiKeyTheorems.RecordsExactly | controller/channel.go:1488-1516 | what the listing shows of a key: enabled and nothing else unless another status is recorded |
| MultiKeyTheorems.DisableKeyRecords | controller/channel.go:1602-1614 | exactly one record changes status, and shows again the time and reason of an earlier disabling |
| MultiKeyTheorems.EnableKeyRecords | controller/channel.go:1645-1656 | exactly one record becomes enabled, and nothing is recorded of it any more |
| MultiKeyTheorems.EnableAllRecords | controller/channel.go:1676-1680 | every record becomes enabled |
| MultiKeyTheorems.DisableAllRecords | controller/channel.go:1705-1717 | no enabled key is left, disabled records are untouched, and the count is the number that were enabled |
| MultiKeyTheorems.ReportRecords | model/channel.go:665-703 | the first record of the reported key takes the status, time and reason; no other record changes; a recovered key keeps only its time and reason |
| MultiKeyTheorems.ReportStanding | model/channel.go:665-715 | for a key of the channel: disabled automatically if and only if no key is left enabled, or it was and this key does not recover, with the reason and time changed only with the last key; for an unknown key nothing; without a key or without keys the report is about the channel |
| MultiKeyStale.StaleUndoes | controller/channel.go:1443-1467 | of any two overlapping actions the second write leaves what the second action alone would have left; only a status report spares the keys, and so does an empty key text |
| MultiKeyStale.StaleStatusExactly | controller/channel.go:1443-1738 | for any two overlapping actions that change no key, the records are those of the sequence if and only if, at every position, what is recorded there already agrees with the first action where the second does not cover it; the condition is a table over the two actions and the recorded status, time and reason |
| MultiKeyStale.StaleOtherKeyExactly | controller/channel.go:1584-1667 | for two requests or reports about different keys, if and only if the first key already had the record that was asked for; otherwise the first, for example an automatic disabling, is lost |
| MultiKeyStale.StaleUndoesDelete | controller/channel.go:1740-1818 | a deletion that took effect is undone by every overlapping request that changes statuses: all keys are back, while the sequence has fewer, and exactly one less when the end keys that remain are not blank |
| MultiKeyStale.StaleUndoesPurge | controller/channel.go:1820-1887 | so is a bulk deletion that left a key that is not blank |
| MultiKeyStale.StaleUndoesAppend | controller/channel.go:957-1034 | appended keys are lost: the records are those of the sequence if and only if no key was new |
| MultiKeyStale.StaleReportMiscounts | model/channel.go:771-800 | after a status report that overlaps another action the recorded size is right if and only if that action left the number of keys as it was; after a deletion it is always wrong |
| MultiKeyStale.StaleAppendExactly | controller/channel.go:931-1034 | an append that overlaps a status action gives the records of the sequence if and only if every position already showed that action |
| MultiKeyStale.StaleDeleteExactly | controller/channel.go:1740-1818 | so does a deletion, for the positions that are left |
| MultiKeyTheorems.PagesCoverListing | controller/channel.go:1546-1566 | the pages one after the other are the whole listing |
| MultiKeyTheorems.PagesExact | controller/channel.go:1545-1566 | each page holds the entries at its positions, and there are as many as it takes |
| MultiKeyTheorems.ShownExact | controller/channel.go:1486-1543 | the listing shows exactly the keys with the status asked for, by position |
| MultiKeyTheorems.TotalsExact | controller/channel.go:1499-1507 | each total is the length of the listing of its status |
| MultiKeyTheorems.PreviewExact | controller/channel.go:1518-1522 | a preview is the key, or its first ten characters and three dots |
| MultiKeyTheorems.AppendExactly | controller/channel.go:1006-1028 | the stored keys become the existing ones followed by the new ones if and only if the text has a character that is not a line break or nothing is new |
| MultiKeyTheorems.AppendAdds | controller/channel.go:997-1025 | the new keys are trimmed, non-blank, distinct and not there yet, and no requested key is lost |
| MultiKeyTheorems.FreshExact | controller/channel.go:997-1025 | the new keys are the requested ones, each once, without those that exist up to surrounding space |
| MultiKeyTheorems.AppendOrder | controller/channel.go:988-1025 | they stand in the order in which the input names them |
| MultiKeyTheorems.AppendRecords | controller/channel.go:940-1028 | existing records stay and the new keys are enabled, under the same condition; a channel without keys takes the lines of the input |
| MultiKeyTheorems.AppendIdempotent | controller/channel.go:957-1028 | appending the same input again changes no record of any channel; it leaves the text alone if and only if the text had a character that is not a line break, or nothing was new, or an empty text took an input that is all line breaks or has none at its ends |
| MultiKeyTheorems.UpdateRecounts | model/channel.go:551-587 | after any write the size is the number of keys and no status lies past it |
| MultiKeyRuns.RunKeepsStatusAligned | controller/channel.go:1584-1887 | in every run of actions on any key text the size is the number of keys and every status is at the position of a key |
| MultiKeyRuns.AlignedExactly | controller/channel.go:1584-1887 | in every run the times and reasons are at positions of keys as well, if and only if they are to begin with, the key text is not empty, and there is one key or no blank one |
| MultiKeyRuns.RunKeepsSound | controller/channel.go:1584-1887 | every run from such a channel leads to such a channel, and keys none of which is blank stay so |
| BodyStorage.MemoryStorage.Read | common/body_storage.go:47-54 | reads as the abstract buffer does |
| BodyStorage.ReadsConsecutive | common/body_storage.go:47-54 | any sequence of reads hands out the data from the position on without gaps, as many bytes as were asked for or as there are |
| BodyStorage.MemoryStorage.Seek | common/body_storage.go:56-63 | seeks as the abstract buffer does, refusing negative positions |
| BodyStorage.SeekExactly | common/body_storage.go:56-63 | where a seek goes for each origin, when it is refused, and that the next read starts there |
| BodyStorage.MemoryStorage.Close | common/body_storage.go:65-72 | idempotent, and the counters stay the number and size of the open storages |
| BodyStorage.DiskStorage.Bytes | common/body_storage.go:198-230 | returns all data and leaves the position where it was |
| BodyStorage.OthersExactly | common/body_storage.go:47-83 | a closed storage refuses everything but closing; the whole contents do not move the position |
| BodyStorage.DiskStorage.Close | common/body_storage.go:187-196 | idempotent; the counters go down by this storage once and the clamps at zero do not fire |
| BodyStorage.Cache.DecrementDiskFiles | common/disk_cache_config.go:114-122 | subtracts, clamping each counter at zero |
| BodyStorage.Storage.Replay | common/body_storage.go:47-238 | any sequence of operations on either storage answers as the abstract buffer does and keeps the counters exact |
| BodyStorage.StoragesEquivalent | common/body_storage.go:47-238 | memory and disk storages with the same contents answer a sequence of operations alike if and only if it never reads no bytes at the end |
| RequestBody.CreateBodyStorage | common/body_storage.go:241-259 | which storage is chosen, its contents, and what is counted; a failing disk falls back to memory |
| RequestBody.NewDiskStorageFromReader | common/body_storage.go:132-167 | streams a whole body of at most the maximum size or counts nothing |
| RequestBody.CreateBodyStorageFromReader | common/body_storage.go:262-303 | all or nothing: exactly the readable bodies within the maximum are stored whole, with one hit of the right kind; the disk usage stays within the quota if and only if no streamed body is too long to fit |
| RequestBody.AnnouncedTooShort | middleware/gzip.go:50-66 | a decompressed body between the quota and the largest request, announced by the length it had before, is stored on disk whole and exceeds the quota |
| RequestBody.RequestContext.GetRequestBody | common/gin.go:36-83 | the storage is created once and handed out rewound; failures count nothing |
| RequestBody.RequestContext.CleanupBodyStorage | common/gin.go:99-106 | closes this request's storage and no other |
| RequestBody.RequestContext.Serve | common/gin.go:36-106 | any number of requests for the body followed by the cleanup restore all four counters |
| DiskAccounting.RunAccounted | common/disk_cache_config.go:108-122 | in every interleaving of atomic operations, failing creations included, the disk counters are the totals over the storages, never negative, and the clamps never fire |
| DiskAccounting.QuietCounters | common/body_storage.go:187-196 | between operations the counters are the number and size of the open storages |
| DiskAccounting.CreatedAlone | common/body_storage.go:100-167 | with nothing in between, a creation that passes the quota check counts one file and the bytes written, and one that fails counts nothing |
| DiskAccounting.ClosedAlone | common/disk_cache_config.go:114-122 | with nothing in between, closing takes one file and the storage's bytes off, down to zero at most |
| DiskAccounting.SizesWritten | common/body_storage.go:122-123 | in every run what a storage counts is a size that was written to it, not the length announced |
| DiskAccounting.QuotaBound | common/disk_cache_config.go:170-177 | with at most k creations in flight and honest lengths, what is counted and what is in flight never exceed k times the maximum, whatever closes or fails in between |
| DiskAccounting.QuotaAttained | common/disk_cache_config.go:170-177 | for every k and maximum an honest run reaches k times the maximum |
| DiskAccounting.QuotaExactly | common/disk_cache_config.go:170-177 | all honest runs with at most k creations in flight stay within the maximum if and only if k is at most one or the maximum is 0 |
| OggScanner.OpusGranules | common/audio.go:196-254 | the loop terminates on every byte sequence and returns what the scan function does |
| OggScanner.FindsMaximum | common/audio.go:207-249 | on any bytes followed by well-formed pages of RFC 3533, section 6, where the first capture pattern is the first page's, the maximum of 0 and all signed granule positions |
| OggScanner.MaxGranuleIsMaximum | common/audio.go:229-232 | that value is the maximum |
| OggScanner.ScanPage | common/audio.go:228-248 | a well-formed page is read whole and the scan resumes at its end |
| OggScanner.ScanSound | common/audio.go:207-249 | on any bytes the result is the start value or the granule position of some page header in the data |
| OggScanner.CapturesExactly | common/audio.go:205-229 | which bytes count as a page header, and which number its eight bytes of granule position are |
| VerificationStore.VerificationMap.RegisterVerificationCodeWithKey | common/verification.go:35-45 | the map after a registration, purged when it has outgrown its bound |
| VerificationStore.VerificationMap.VerifyCodeWithKey | common/verification.go:47-56 | true exactly for a live entry with this code |
| VerificationStore.VerificationMap.DeleteKey | common/verification.go:58-62 | removes this purpose and key only |
| VerificationStore.VerificationMap.RemoveExpiredPairs | common/verification.go:65-72 | the loop removes exactly the expired entries |
| VerificationStore.PurgeInvisible | common/verification.go:35-72 | after any run a code verifies if and only if the latest undeleted registration for that purpose and key has it and is under the validity period in whole seconds, as if nothing were ever purged |
| VerificationStore.LiveExactly | common/verification.go:51 | a code is valid for exactly ten minutes |
| VerificationStore.RegistrationBounds | common/verification.go:35-45 | a registration that leaves at most ten entries drops none, another exactly those that are ten minutes old |
| VerificationStore.RegistrationSize | common/verification.go:42-44 | after a registration the map holds at most ten entries or only live ones |
| RedisCodec.HSetObj | common/redis.go:113-147 | the loop stores the printed form of every field but deletion times |
| RedisCodec.StoredExactly | common/redis.go:119-144 | what is stored of each field: text as it is, the shortest decimal text of an integer, true or false, nothing of a nil pointer, no deletion time |
| RedisCodec.HGetObj | common/redis.go:172-238 | decodes field by field in order, stopping at the first field that does not parse; an empty hash is not found and leaves the struct |
| RedisCodec.DecodeExactly | common/redis.go:182-236 | fields are filled up to and including the first that cannot be read, which is reported; those after it stay |
| RedisCodec.DecodeValueExactly | common/redis.go:188-232 | how one text is read into each type of field, empty texts and nil pointers included |
| RedisCodec.ParsePrintInt | common/redis.go:209-214 | every 64-bit integer is parsed back from its decimal text |
| RedisCodec.PrintIntShortest | common/redis.go:143 | what is printed is the shortest text of an integer and the only one of its length |
| RedisCodec.ParseIntExactly | common/redis.go:209-214 | exactly the texts that are parsed as a 64-bit integer |
| RedisCodec.ParseBoolExactly | common/redis.go:215-220 | exactly the texts that are parsed as a boolean |
| RedisCodec.RoundTrip | common/redis.go:107-239 | reading into a zeroed struct what was stored returns the struct with its lossy fields zeroed, and not found when nothing of it is stored |
| RedisCodec.RoundTripExactly | common/redis.go:107-239 | the struct itself comes back if and only if something of it is stored and it has no pointer to an empty string and no deletion time |
| RedisCodec.DeletionTimeNotFound | common/redis.go:122-125 | a concrete struct without lossy fields that is not found again |

## Left out

- HTTP handling, JSON binding, permissions, audit logging, caches and abilities: they carry data around the cores.
- Upstream fetching per provider, the parsing of the model mapping and notifications: the fetched list and the mapping are parameters.
- Keys stored as a JSON array and Vertex keys: the key text is read as lines; a text whose first key begins with `[` is not part of this model.
- MultiKey.MultiKeyChannel.GetKeyStatus: a preview ends after ten characters; the code counts bytes, so the two differ for keys outside ASCII.
- MultiKey.MultiKeyChannel.ReportStatus: the caller's skipping of a report of the status the channel already has is not modelled; a skipped report is a run without that step.
- Other writers of a channel row (editing, copying, deleting channels): the runs contain the actions listed above.
- RateLimiter.InMemoryRateLimiter.Request: negative limits, on which the code panics, are excluded; each key is used with one limit throughout a run.
- ChannelScan.ChannelTable.RunUpdateTaskOnce: the progress reports are not modelled.
- Overlapping requests both of which change keys, and an overlapping bulk deletion after a status action: `MultiKeyStale.StaleUndoes` says what is left, without a condition for when it equals the sequence.
- BodyStorage.MemoryStorage.Bytes: returns the contents; that the code hands out its own buffer, which a caller could write to, is not captured.
- BodyStorage.DiskStorage.Read: a read returns all bytes available up to the length asked for; short reads by the operating system and positions past 64 bits are not modelled.
- RequestBody.CreateBodyStorageFromReader: sequential; concurrent creations are in DiskAccounting, for the disk counters only.
- Clean-up of stale files and the resetting of the counters from the disk: they overwrite the counters by design.
- OggScanner.OpusGranules: the result is the granule count; the division by 48000 in floating point and pre-skip are left out.
- VerificationStore.VerificationMap.VerifyCodeWithKey: the elapsed time is an exact number of nanoseconds, not a floating-point number of seconds.
- RedisCodec.HGetObj: fields of other types than text, integers, booleans, pointers to them and deletion times are not modelled; parsing of times is a parameter, and so the expiry of keys is left out.
