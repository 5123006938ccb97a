/** The decisions the cleanup pass takes from a volume's tags and from the
    time stored for it: which volumes discovery skips, which ones validation
    regards as approved or exempt, the tags marking writes, and the whole-day
    delay that makes a tracked volume mature. */
module TagPolicy {
  import opened Util

  /** EC2 tags of one volume; EC2 keeps tag keys unique per resource. */
  type TagSet = map<string, string>

  /** A point in time, in whole seconds. */
  type Time = int

  const DoNotDeleteKey: string := "DoNotDelete"
  const DeleteKey: string := "Delete"
  const UpdatedByKey: string := "TagUpdatedBy"
  const UpdatedOnKey: string := "CleanupTagUpdatedOn"

  const SecondsPerDay: nat := 86400

  /** An operator has asked to keep the volume. */
  predicate IsExempt(tags: TagSet)
    ensures IsExempt(tags) ==> IsRequiredOrTagged(Some(tags))
  {
    DoNotDeleteKey in tags
  }

  /** Discovery's flag: the volume has a 'Tags' field holding a `DoNotDelete`
      or `Delete` key. A volume without the field is not flagged. */
  predicate IsRequiredOrTagged(tags: Option<TagSet>)
    ensures tags.None? ==> !IsRequiredOrTagged(tags)
    ensures tags.Some? && IsApproved(tags.value) ==> IsRequiredOrTagged(tags)
  {
    tags.Some? && (DoNotDeleteKey in tags.value || DeleteKey in tags.value)
  }

  /** Validation's approval: the `Delete` value is a non-empty (truthy)
      string, so any value but the empty one approves, "False" included. */
  predicate IsApproved(tags: TagSet)
    ensures IsApproved(tags) ==> DeleteKey in tags
    ensures DeleteKey in tags && tags[DeleteKey] == "False" ==> IsApproved(tags)
    ensures DeleteKey in tags && tags[DeleteKey] == "" ==> !IsApproved(tags)
  {
    DeleteKey in tags && tags[DeleteKey] != ""
  }

  /** The tags `create_tags` leaves on a volume: the keys of `added` take
      their new values, every other key keeps its old one. */
  function Tagged(tags: Option<TagSet>, added: TagSet): (r: TagSet)
    ensures forall k :: k in added ==> k in r && r[k] == added[k]
    ensures forall k :: k !in added ==>
              (k in r <==> tags.Some? && k in tags.value) &&
              (k in r ==> r[k] == tags.value[k])
  {
    (if tags.Some? then tags.value else map[]) + added
  }

  /** The tags `delete_tags` leaves on a volume: the given keys are gone,
      every other key keeps its value. A volume left with no tag at all is
      described without a 'Tags' field, like one that never had any. */
  function Untagged(tags: Option<TagSet>, keys: set<string>): (r: Option<TagSet>)
    ensures r.Some? <==> tags.Some? && !(tags.value.Keys <= keys)
    ensures r.Some? ==> forall k :: (k in r.value <==> k in tags.value && k !in keys) &&
                                    (k in r.value ==> r.value[k] == tags.value[k])
  {
    if tags.Some? && !(tags.value.Keys <= keys) then Some(tags.value - keys) else None
  }

  /** The three tags with which the pass marks a candidate; the mark
      approves deletion and never exempts. */
  function DeletionMark(stamp: string): (m: TagSet)
    ensures m.Keys == {DeleteKey, UpdatedByKey, UpdatedOnKey}
    ensures m[DeleteKey] == "True" && m[UpdatedByKey] == "Cleanup" && m[UpdatedOnKey] == stamp
    ensures IsApproved(m) && !IsExempt(m)
  {
    map[DeleteKey := "True", UpdatedByKey := "Cleanup", UpdatedOnKey := stamp]
  }

  /** A marked volume is approved and is no longer a discovery candidate,
      whatever tags it had before. */
  lemma MarkedIsApproved(tags: Option<TagSet>, stamp: string)
    ensures Tagged(tags, DeletionMark(stamp))[DeleteKey] == "True"
    ensures IsApproved(Tagged(tags, DeletionMark(stamp)))
    ensures IsRequiredOrTagged(Some(Tagged(tags, DeletionMark(stamp))))
    ensures IsExempt(Tagged(tags, DeletionMark(stamp))) <==> tags.Some? && IsExempt(tags.value)
  {
    var r := Tagged(tags, DeletionMark(stamp));
    assert DeleteKey in DeletionMark(stamp);
    assert DoNotDeleteKey !in DeletionMark(stamp);
  }

  function Abs(x: int): nat
  {
    if x < 0 then -x else x
  }

  /** Whole days separating the stored time from now, in either direction:
      the `days` of the absolute difference, rounded down. */
  function DelayDays(updated: Time, now: Time): (d: nat)
    ensures d * SecondsPerDay <= Abs(now - updated) < (d + 1) * SecondsPerDay
  {
    Abs(now - updated) / SecondsPerDay
  }

  /** A tracked volume is mature once a whole day separates its stored time
      from now: 86400 elapsed seconds, not a change of calendar day, and a
      time stored in the future matures the same way. */
  predicate IsMature(updated: Time, now: Time)
    ensures IsMature(updated, now) <==> now - updated >= SecondsPerDay || updated - now >= SecondsPerDay
  {
    DelayDays(updated, now) >= 1
  }
}
