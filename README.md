# EBS cleanup pass — a verified Dafny model

`cleanupebs.py` is an AWS Lambda that removes unused EBS volumes in two
phases of one run:

- **Discovery** lists the volumes whose status is `available` and keeps
  those that carry neither a `DoNotDelete` nor a `Delete` tag key.
- **Marking** tags each of those candidates with `Delete=True`,
  `TagUpdatedBy=Cleanup` and `CleanupTagUpdatedOn=<now>`. Only when the
  tagging succeeds does it write a record `volumeId -> now` into the
  DynamoDB table `cleanup`.
- **Validation** walks a snapshot of the table and settles each record:
  - If the lookup raises, or the volume has no tags, the record is removed.
  - If the `Delete` value is non-empty and a whole day has passed since the
    stored time, the volume is deleted, reported and its record removed.
  - If that deletion raises, the record stays.
  - Whatever happened before, a `DoNotDelete` tag removes the record.

The model holds the two services as plain mutable state:

- `Aws.Ec2`: the volumes by id, the listing order and the ids deleted so far.
- `Aws.DynamoDb`: the stored time of each volume id and the scan order.

Each boto3 call becomes a method on these classes. A call that raises
returns `false`. Whether it raises is decided by the state (a missing
volume, a volume in use) together with a per-pass `Faults` record. That
record names the ids for which `create_tags`, `put_item`, the single-volume
`describe_volumes` or `delete_volume` raise for any other reason (throttling,
permissions). The clock is the integer `now` in seconds.
`CleanupTagUpdatedOn` gets an opaque `stamp` string.

`CleanupEbs.Cleanup` mirrors the Python class method by method; the
validation loop body is the method `ValidateEntry`. `LambdaHandler`
mirrors `lambda_handler`, with its marking loop as the method
`MarkCandidates`. Each phase also has a closed form as a function of the
state before it:

- `Candidates` for discovery;
- `MarkPhase` for marking;
- `ValidatePhase` and `DeletedList` for validation.

The methods are proved to produce exactly these. The lemmas in
`PassProperties` then state, over the closed forms, what a run guarantees.

Time follows the code: a record is mature when `|now - updated| / 86400 >= 1`
(integer division), i.e. after 86400 elapsed seconds in either direction,
not after a change of calendar date.

In five places the code does something its own comments do not lead one to
expect. The model follows the code in each:

- **`DoNotDelete` does not protect an approved, mature volume.** The handler
  comment at cleanupebs.py:166 says volumes with the tag are skipped, and
  discovery does skip them. Validation, however, deletes the volume first
  (cleanupebs.py:86-95), and `DoNotDelete` only removes the record
  afterwards (cleanupebs.py:98-101; `ExemptStillDeleted`).
- **Approval is any non-empty `Delete` value.** The comment at
  cleanupebs.py:85 speaks of the delete tag being present; the test at
  line 86 is the truthiness of its value, so `Delete=False` approves
  deletion and an empty value does not (`IsApproved`).
- **A volume that has lost all its tags is treated as missing.** Its record
  is forgotten. `delete_tags` removing a volume's last tags leaves it in
  that same state.
- **A failed lookup orphans a freshly marked volume.** A candidate tagged
  and recorded in a run whose single-volume lookup then raises loses its
  record in that same run (cleanupebs.py:66-75) but keeps `Delete=True`,
  so discovery skips it from then on (cleanupebs.py:30): it is never
  tracked or deleted again (`LookupFailureOrphans`).
- **`put_item` overwrites.** A candidate with an earlier, stale record gets
  its time reset. Only volumes that already carry `Delete` are protected
  from a reset, because discovery skips them.

## Model

| member | source | states |
|---|---|---|
| TagPolicy.Tagged | cleanupebs.py:106-125 | `create_tags` writes the given keys over the volume's tags; every other key keeps its value, and a volume without tags gets only the new ones |
| TagPolicy.Untagged | cleanupebs.py:129-144 | `delete_tags` removes the given keys and keeps the rest; a volume left with no tag at all, like one that had none, is described without a `Tags` field |
| TagPolicy.MarkedIsApproved | cleanupebs.py:110-123 | after marking, `Delete` is "True", so the volume is approved for validation and skipped by discovery; it is exempt exactly when it was before |
| TagPolicy.IsRequiredOrTagged | cleanupebs.py:26-31 | discovery's flag: a volume without a `Tags` field is never flagged, and an approved volume always is |
| TagPolicy.IsApproved | cleanupebs.py:76-86 | approval needs a `Delete` key; any non-empty value approves, "False" included, and the empty value does not |
| TagPolicy.IsExempt | cleanupebs.py:99-100 | a `DoNotDelete` volume is also flagged by discovery, so it is never a candidate |
| TagPolicy.DeletionMark | cleanupebs.py:111-124 | the mark holds exactly the keys `Delete`, `TagUpdatedBy`, `CleanupTagUpdatedOn` with "True", "Cleanup" and the stamp; it approves and never exempts |
| TagPolicy.DelayDays | cleanupebs.py:82-84 | the delay is the whole number of days in the absolute elapsed time, rounded down |
| TagPolicy.IsMature | cleanupebs.py:84-86 | maturity holds exactly when at least 86400 s separate the stored time from now, in either direction; so a time equal to now is never mature |
| Aws.Ec2.DescribeAvailable | cleanupebs.py:13-24 | the listing filtered on status `available`: exactly the listed available volumes |
| Aws.Ec2.DescribeVolume | cleanupebs.py:61-64 | the lookup returns the volume exactly when it exists and the call does not raise |
| Aws.Ec2.CreateTags | cleanupebs.py:106-125 | succeeds exactly for an existing volume when the call does not raise; only that volume's tags change, as `Tagged` says |
| Aws.Ec2.DeleteTags | cleanupebs.py:129-144 | succeeds exactly for an existing volume; only that volume's tags change, as `Untagged` says |
| Aws.Ec2.DeleteVolume | cleanupebs.py:88-91 | succeeds exactly for an existing, available volume when the call does not raise; the volume leaves the inventory and the listing and joins the deleted set |
| Aws.DynamoDb.PutItem | cleanupebs.py:42-45 | a blind write: the key maps to the new time, overwriting any earlier one; a new key goes last in scan order |
| Aws.DynamoDb.DeleteItem | cleanupebs.py:147-151 | removes the key from the items and the scan order; an absent key changes nothing |
| Aws.DynamoDb.Scan | cleanupebs.py:52-58 | one record per key, in scan order, with its stored time |
| CleanupEbs.Candidates | cleanupebs.py:11-38 | discovery's result as a function of the state: at most as long as the listing, and holding exactly the listed, available volumes not flagged by `IsRequiredOrTagged` |
| CleanupEbs.MarkPhase | cleanupebs.py:169-174 | marking keeps the set of volumes, the listing and the deleted set, loses no record, and changes no record of a non-candidate |
| CleanupEbs.MarkVolume | cleanupebs.py:104-125 | a marked volume keeps its state and maps `Delete` to "True", `TagUpdatedBy` to "Cleanup" and `CleanupTagUpdatedOn` to the stamp, every other key unchanged |
| CleanupEbs.MarkUntouched | cleanupebs.py:169-174 | before its own turn a candidate's volume and record presence are as at the start |
| CleanupEbs.MarkStepVolumes | cleanupebs.py:169-171 | one more turn of the marking loop changes only that candidate's volume, and only when tagging succeeds |
| CleanupEbs.MarkStepItems | cleanupebs.py:169-172 | one more turn writes only that candidate's record, and only when tagging and writing both succeed |
| CleanupEbs.MarkStepOrder | cleanupebs.py:169-172 | one more turn appends the candidate to the scan order only when it is newly recorded |
| CleanupEbs.MarkNone | cleanupebs.py:169 | marking no candidate changes nothing |
| CleanupEbs.MarkAmong | cleanupebs.py:169-174 | tag-then-record over a list of candidates keeps the set of volumes, the listing and the deleted set, loses no record, and changes no volume or record outside the list |
| CleanupEbs.MarkOne | cleanupebs.py:170-174 | one turn of the marking loop: only that candidate's volume and record may change; it is recorded with now when tagging and writing succeed, otherwise no record changes; when tagging raises nothing changes |
| CleanupEbs.MarkAmongSnoc | cleanupebs.py:169-174 | marking the candidates one after the other is one `MarkOne` step per candidate |
| CleanupEbs.Dispose | cleanupebs.py:60-101 | the fate of one record: forgotten exactly when lookup fails or there are no tags; deleted exactly when approved, mature, available and the call succeeds; a `DoNotDelete` volume's record is always dropped; a found, non-exempt volume that is not approved-and-mature waits; a record stamped now is never deleted |
| CleanupEbs.Lookup | cleanupebs.py:60-65 | the single-volume lookup finds the volume exactly when it exists and the call does not raise, and returns it as stored |
| CleanupEbs.ValidatePhase | cleanupebs.py:50-102 | validation only removes volumes and records: it changes no remaining volume (no tag is touched) and no remaining stored time, and the deleted set only grows |
| CleanupEbs.DeletedList | cleanupebs.py:51-102 | every reported id had a record and a volume, and its `delete_volume` did not raise; the list is no longer than the scan |
| CleanupEbs.SettleOne | cleanupebs.py:88-101 | the effect of one validation outcome: only that id's volume and record may change; the volume leaves exactly when deleted and then joins the deleted set; the record leaves exactly when the outcome drops it; no remaining volume changes |
| CleanupEbs.ApplyNone | cleanupebs.py:56 | deleting and dropping nothing leaves the state as it was |
| CleanupEbs.ApplyStep | cleanupebs.py:88-101 | deleting or dropping one more id is one `SettleOne` step |
| CleanupEbs.SettledNone | cleanupebs.py:56 | before any record is settled, validation has changed nothing |
| CleanupEbs.SettledStep | cleanupebs.py:56-101 | settling one more record of the snapshot is one `SettleOne` step with that record's fate |
| CleanupEbs.SettledPrefixSnoc | cleanupebs.py:56-101 | the state after a prefix of the snapshot plus one record is one more `SettleOne` step |
| CleanupEbs.PrefixIsSettled | cleanupebs.py:56-101 | settling the records one by one in scan order gives the same state as settling the whole set at once |
| CleanupEbs.SettledAll | cleanupebs.py:50-102 | settling every record of the snapshot is the validation phase `ValidatePhase` |
| CleanupEbs.PrefixUntouched | cleanupebs.py:56-65 | a volume whose record comes later in the snapshot is still as it was when its turn comes |
| CleanupEbs.ValidateStep | cleanupebs.py:56-101 | one turn of the validation loop extends the settled prefix, and extends the deleted list by exactly the ids whose fate is deletion |
| CleanupEbs.Cleanup.FindUnusedEbsVolumes | cleanupebs.py:11-38 | the result is the listing filtered to available volumes with neither `DoNotDelete` nor `Delete`, in listing order and without duplicates; a volume without tags is included |
| CleanupEbs.Cleanup.UpdateDynamodb | cleanupebs.py:41-46 | the record of the volume is set to now, overwriting any earlier time; nothing else changes |
| CleanupEbs.Cleanup.UpdateDeleteTagOfEbsVolume | cleanupebs.py:104-126 | on success the volume becomes `MarkVolume` of itself and no other volume changes; on failure nothing changes |
| CleanupEbs.Cleanup.RemoveDeleteTagOfEbsVolume | cleanupebs.py:128-145 | on success the `Delete` and `TagUpdatedBy` keys are gone from that volume and nothing else changes |
| CleanupEbs.Cleanup.RemoveEntryFromDynamodb | cleanupebs.py:147-152 | the record is removed; removing an absent record changes nothing, so a second removal is harmless |
| CleanupEbs.Cleanup.ValidateEntry | cleanupebs.py:57-101 | one record is settled as `Dispose` says for the volume as the lookup sees it; the result is true exactly when the volume was deleted |
| CleanupEbs.Cleanup.ValidateDynamodbEntries | cleanupebs.py:50-102 | the new state is `ValidatePhase` of the old one, and the result is the deleted ids in scan order |
| CleanupEbs.MarkCandidates | cleanupebs.py:169-174 | after tag-then-record over the candidates, the state is `MarkAmong` of the old one |
| CleanupEbs.LambdaHandler | cleanupebs.py:164-177 | the candidates are discovery's result on the old state; the new state is validation after marking; the reported list is the deleted ids |
| PassProperties.CandidatesExactly | cleanupebs.py:25-36 | discovery returns each volume at most once, and a volume exactly when it is available with neither tag key (or with no tags at all) |
| PassProperties.MarkPhaseVolumes | cleanupebs.py:169-171 | marking keeps the set of volumes; a candidate whose tagging succeeds is marked, every other volume is unchanged |
| PassProperties.MarkPhaseTable | cleanupebs.py:169-174 | a candidate is recorded with now exactly when tagging and writing succeed; every other record is unchanged |
| PassProperties.FirstSeenNotReset | cleanupebs.py:30-36 | a volume already carrying `Delete` (or `DoNotDelete`) is not a candidate; its tags and its stored time survive marking |
| PassProperties.TagFailureWritesNoRecord | cleanupebs.py:170-174 | when tagging raises, no record is written and the volume is unchanged |
| PassProperties.LookupFailureForgets | cleanupebs.py:60-75 | a record whose lookup fails or whose volume has no tags is removed; the volume is neither deleted nor reported |
| PassProperties.DeletedOnlyApprovedMature | cleanupebs.py:76-95 | a volume leaves the inventory only as a reported deletion of an available, approved volume with a mature record; a volume whose record is stamped now is never deleted |
| PassProperties.DeleteAttempt | cleanupebs.py:86-101 | for an approved, mature record: a successful delete reports the id and removes volume and record; a failed delete reports nothing and keeps the volume, and keeps the record exactly when there is no `DoNotDelete` |
| PassProperties.SurvivorsAreTracked | cleanupebs.py:60-101 | every record left after validation belongs to a found, tagged volume without `DoNotDelete` and keeps its stored time |
| PassProperties.WaitingRecordUnchanged | cleanupebs.py:86-101 | a found, tagged, non-exempt volume that is not both approved and mature keeps its record and its volume, and is not reported |
| PassProperties.DeletedListSound | cleanupebs.py:51-102 | the reported list has no duplicates and holds exactly the table keys whose volume left the inventory |
| PassProperties.MarkedNotDeletedSamePass | cleanupebs.py:169-177 | a candidate recorded in this run is not deleted by the same run's validation |
| PassProperties.NoCandidateAfterPass | cleanupebs.py:164-177 | when no tagging raises, a later discovery finds no candidate |
| PassProperties.LookupFailureOrphans | cleanupebs.py:30-36 | a candidate marked and recorded in this run whose lookup raises ends the run without a record but still tagged `Delete=True`, so discovery no longer picks it up |
| PassProperties.ExemptStillDeleted | cleanupebs.py:86-101 | an approved, mature, available volume is deleted even when it carries `DoNotDelete` |

## Left out

- boto3 clients and credentials (cleanupebs.py:5-7): replaced by the `Ec2`
  and `DynamoDb` objects.
- Exception types: every raising call is one failure outcome. `describe_volumes`
  for one id and a missing `Tags` field both lead to "not found".
- Failures of `scan` (cleanupebs.py:52), of the discovery listing
  (cleanupebs.py:13) and of `delete_item`: the model treats these calls as
  always succeeding. A failure of the listing, of the scan, or of the
  `delete_item` calls at cleanupebs.py:68, 74 and 101 raises out of the
  handler and aborts the run. A failure of the call at cleanupebs.py:95
  is different: it sits inside the `try` of lines 87-97, so lines 96-97
  catch it; the id has already been appended at line 93, so the volume is
  reported while its record stays in the table (and, for a `DoNotDelete`
  volume, line 101 then tries once more).
- Scan order is a modelling choice. DynamoDB returns the items of a scan in
  an order of its own (by hashed key); the model returns them in the order
  the keys were first written, a new key going last. Which ids a run
  deletes does not depend on this order, only the order of the reported
  list does.
- Scan pagination: `scan` at cleanupebs.py:52-54 returns only the first
  page (up to 1 MB) and the code does not follow `LastEvaluatedKey`; the
  model scans the whole table.
- `notify_list_of_unused_ebs` and SNS (cleanupebs.py:154-162, 180): I/O
  and `str(list)` message text.
- `print` logging and the JSON/HTTP return value (cleanupebs.py:182-185).
- `strftime`/`strptime` and the date format: times are integer seconds. The
  stored string is truncated to whole seconds, and an unparsable stored
  string is not handled.
- The clock: each `datetime.today()` call is one `now` per run, and the tag
  value `CleanupTagUpdatedOn` is the opaque `stamp`.
- Pagination and `MaxResults=100` of the discovery listing
  (cleanupebs.py:23): discovery sees the whole listing.
- Volume states: `Aws.VolumeState` has `Available` and `InUse`, where
  `InUse` stands for every status other than `available` (creating,
  in-use, deleting, deleted, error).
- Asynchronous deletion: EC2 deletes a volume in the background after
  `delete_volume` returns; the model removes it at once, which no single
  run can tell apart.
- `delete_tags` value matching: `RemoveDeleteTagOfEbsVolume` removes the
  `Delete` and `TagUpdatedBy` keys whatever their values. Nothing in the
  source calls it.
- Concurrency between overlapping runs and eventual consistency of tags.
- CleanupEbs.MarkCandidates: is a separate method here, while in the source
  the loop is inline in `lambda_handler`.
- CleanupEbs.Cleanup.ValidateEntry: is a separate method here, while in the
  source it is the body of the loop in `validate_dynamodb_entries`.
