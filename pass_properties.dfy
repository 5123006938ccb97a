/** What one run of the cleanup Lambda guarantees, stated over the
    closed-form effect of each phase (`Candidates`, `MarkPhase`,
    `ValidatePhase`, `DeletedList`), which the methods of `CleanupEbs` are
    proved to implement. */
module PassProperties {
  import opened Util
  import opened TagPolicy
  import opened Aws
  import opened CleanupEbs

  // ---------------------------------------------------------------- discovery

  /** Discovery returns each listed volume at most once, and a volume
      exactly when it is available and has neither a `DoNotDelete` nor a
      `Delete` key; a volume without tags qualifies. */
  lemma CandidatesExactly(w: World, id: VolumeId)
    requires WellFormed(w)
    ensures NoDups(Candidates(w))
    ensures id in Candidates(w) <==>
              && id in w.volumes && w.volumes[id].state == Available
              && (w.volumes[id].tags.None? ||
                  (DoNotDeleteKey !in w.volumes[id].tags.value && DeleteKey !in w.volumes[id].tags.value))
  {
    KeepNoDups(w.listing, UnusedIds(w.volumes));
  }

  // ---------------------------------------------------------------- marking

  /** Marking keeps the set of volumes; a candidate whose `create_tags`
      succeeds carries the mark, every other volume is unchanged. */
  lemma MarkPhaseVolumes(w: World, now: Time, stamp: string, faults: Faults, id: VolumeId)
    requires id in w.volumes
    ensures var vs := MarkPhase(w, now, stamp, faults).volumes;
            && id in vs
            && vs[id] == if id in Candidates(w) && id !in faults.tagging then MarkVolume(w.volumes[id], stamp)
                         else w.volumes[id]
    ensures MarkPhase(w, now, stamp, faults).volumes.Keys == w.volumes.Keys
  {
    var vs := MarkPhase(w, now, stamp, faults).volumes;
    assert id in MarkedIds(w, Candidates(w), faults) <==> id in Candidates(w) && id !in faults.tagging;
  }

  /** Marking records a candidate with the current time exactly when both
      its tagging and its record write succeed; every other record is left
      as it was. */
  lemma MarkPhaseTable(w: World, now: Time, stamp: string, faults: Faults, id: VolumeId)
    ensures var its := MarkPhase(w, now, stamp, faults).items;
            var recorded := id in Candidates(w) && id !in faults.tagging && id !in faults.recording;
            && (recorded ==> id in its && its[id] == now)
            && (!recorded ==> (id in its <==> id in w.items) && (id in its ==> its[id] == w.items[id]))
  {
    assert id in RecordedIds(w, Candidates(w), faults) <==>
           id in Candidates(w) && id !in faults.tagging && id !in faults.recording;
  }

  /** A volume that already carries `Delete` (or `DoNotDelete`) is not a
      candidate, so a pass neither re-tags it nor rewrites its record: the
      time first stored for it is kept. */
  lemma FirstSeenNotReset(w: World, now: Time, stamp: string, faults: Faults, id: VolumeId)
    requires id in w.volumes && IsRequiredOrTagged(w.volumes[id].tags)
    ensures id !in Candidates(w)
    ensures var m := MarkPhase(w, now, stamp, faults);
            && id in m.volumes && m.volumes[id] == w.volumes[id]
            && (id in m.items <==> id in w.items)
            && (id in w.items ==> m.items[id] == w.items[id])
  {
    MarkPhaseVolumes(w, now, stamp, faults, id);
    MarkPhaseTable(w, now, stamp, faults, id);
  }

  /** A candidate whose tagging raises gets no record: the handler skips
      the write after a failed `create_tags`. */
  lemma TagFailureWritesNoRecord(w: World, now: Time, stamp: string, faults: Faults, id: VolumeId)
    requires id in faults.tagging
    ensures var m := MarkPhase(w, now, stamp, faults);
            && (id in m.items <==> id in w.items)
            && (id in w.items ==> m.items[id] == w.items[id])
            && (id in w.volumes ==> id in m.volumes && m.volumes[id] == w.volumes[id])
  {
    MarkPhaseTable(w, now, stamp, faults, id);
    if id in w.volumes {
      MarkPhaseVolumes(w, now, stamp, faults, id);
    }
  }

  // ---------------------------------------------------------------- validation

  /** A record whose lookup raises, or whose volume has no tags, is removed;
      the volume is neither deleted nor reported. */
  lemma LookupFailureForgets(w: World, now: Time, faults: Faults, id: VolumeId)
    requires id in w.items
    requires var found := Lookup(w.volumes, id, faults);
             found.None? || found.value.tags.None?
    ensures var s := ValidatePhase(w, now, faults);
            && id !in s.items && id !in s.order
            && (id in s.volumes <==> id in w.volumes)
            && id !in s.deleted - w.deleted
    ensures id !in DeletedList(w, now, faults)
  {
    assert FateOf(w, id, now, faults) == Forget;
    assert id !in DeletedIds(w, now, faults);
    assert id in DroppedIds(w, now, faults);
  }

  /** A volume leaves the inventory only as a reported deletion, and a
      reported volume had a record, was available and approved, and had
      been tracked for at least a whole day; so a volume whose record is
      stamped with the current time is never deleted. */
  lemma DeletedOnlyApprovedMature(w: World, now: Time, faults: Faults, id: VolumeId)
    requires WellFormed(w)
    requires id in w.volumes && id !in ValidatePhase(w, now, faults).volumes
    ensures id in DeletedList(w, now, faults)
    ensures id in w.items && id !in faults.deleting
    ensures w.volumes[id].state == Available && w.volumes[id].tags.Some?
    ensures IsApproved(w.volumes[id].tags.value) && IsMature(w.items[id], now)
    ensures w.items[id] != now
    ensures id !in ValidatePhase(w, now, faults).items && id in ValidatePhase(w, now, faults).deleted
  {
    assert id in DeletedIds(w, now, faults);
    var fate := FateOf(w, id, now, faults);
    assert fate == Delete;
    assert id in DroppedIds(w, now, faults);
  }

  /** An approved, mature record: when `delete_volume` succeeds, the volume
      is gone, reported and its record removed; when it raises, nothing is
      reported, the volume stays, and the record stays unless the volume
      carries `DoNotDelete`. */
  lemma DeleteAttempt(w: World, now: Time, faults: Faults, id: VolumeId)
    requires WellFormed(w) && id in w.items
    requires var found := Lookup(w.volumes, id, faults);
             && found.Some? && found.value.tags.Some?
             && IsApproved(found.value.tags.value) && IsMature(w.items[id], now)
    ensures var s := ValidatePhase(w, now, faults);
            var ok := id !in faults.deleting && w.volumes[id].state == Available;
            && (ok ==> id in DeletedList(w, now, faults) && id !in s.volumes && id in s.deleted && id !in s.items)
            && (!ok ==> && id !in DeletedList(w, now, faults)
                        && id in s.volumes && s.volumes[id] == w.volumes[id]
                        && (id in s.items <==> !IsExempt(w.volumes[id].tags.value))
                        && (id in s.items ==> s.items[id] == w.items[id]))
  {
    var fate := FateOf(w, id, now, faults);
    assert id in DeletedIds(w, now, faults) <==> fate == Delete;
    assert id in DroppedIds(w, now, faults) <==> DropsRecord(fate);
  }

  /** After validation every remaining record belongs to a volume the
      lookup found, with tags and without `DoNotDelete`, and keeps its
      stored time: no record survives for a `DoNotDelete` volume. */
  lemma SurvivorsAreTracked(w: World, now: Time, faults: Faults, id: VolumeId)
    requires id in ValidatePhase(w, now, faults).items
    ensures id in w.items && ValidatePhase(w, now, faults).items[id] == w.items[id]
    ensures id in w.volumes && id !in faults.lookup
    ensures w.volumes[id].tags.Some? && !IsExempt(w.volumes[id].tags.value)
  {
    var fate := FateOf(w, id, now, faults);
    assert id !in DroppedIds(w, now, faults);
    assert !DropsRecord(fate);
  }

  /** A record whose volume the lookup finds, with tags, without
      `DoNotDelete`, and not both approved and mature, is left as it was,
      and so is its volume. */
  lemma WaitingRecordUnchanged(w: World, now: Time, faults: Faults, id: VolumeId)
    requires id in w.items
    requires var found := Lookup(w.volumes, id, faults);
             && found.Some? && found.value.tags.Some? && !IsExempt(found.value.tags.value)
             && !(IsApproved(found.value.tags.value) && IsMature(w.items[id], now))
    ensures var s := ValidatePhase(w, now, faults);
            && id in s.items && s.items[id] == w.items[id]
            && id in s.volumes && s.volumes[id] == w.volumes[id]
            && id !in DeletedList(w, now, faults)
  {
    assert FateOf(w, id, now, faults) == Wait;
    assert id !in DeletedIds(w, now, faults);
    assert id !in DroppedIds(w, now, faults);
  }

  /** The reported list has no duplicates and holds exactly the table keys
      whose volume was deleted (it is `Keep(w.order, ...)`, so in scan
      order). */
  lemma DeletedListSound(w: World, now: Time, faults: Faults, id: VolumeId)
    requires WellFormed(w)
    ensures NoDups(DeletedList(w, now, faults))
    ensures id in DeletedList(w, now, faults) <==>
              id in w.items && id in w.volumes && id !in ValidatePhase(w, now, faults).volumes
  {
    KeepNoDups(w.order, DeletedIds(w, now, faults));
    if id in w.items && id in w.volumes && id !in ValidatePhase(w, now, faults).volumes {
      DeletedOnlyApprovedMature(w, now, faults, id);
    }
  }

  // ---------------------------------------------------------------- whole pass

  /** A candidate recorded in this pass carries the current time, so the
      same pass does not delete it. */
  lemma MarkedNotDeletedSamePass(w: World, now: Time, stamp: string, faults: Faults, c: VolumeId)
    requires c in Candidates(w) && c !in faults.tagging && c !in faults.recording
    ensures c !in DeletedList(MarkPhase(w, now, stamp, faults), now, faults)
  {
    var m := MarkPhase(w, now, stamp, faults);
    MarkPhaseTable(w, now, stamp, faults, c);
    assert m.items[c] == now;
    assert FateOf(m, c, now, faults) != Delete;
  }

  /** When no tagging raises, a pass leaves no volume that a later discovery
      would pick up: every candidate now carries `Delete`, and validation
      changes no tags. */
  lemma NoCandidateAfterPass(w: World, now: Time, stamp: string, faults: Faults)
    requires WellFormed(w) && faults.tagging == {}
    ensures UnusedIds(ValidatePhase(MarkPhase(w, now, stamp, faults), now, faults).volumes) == {}
  {
    var m := MarkPhase(w, now, stamp, faults);
    var s := ValidatePhase(m, now, faults);
    forall id | id in s.volumes
      ensures id !in UnusedIds(s.volumes)
    {
      assert id in m.volumes && s.volumes[id] == m.volumes[id];
      MarkPhaseVolumes(w, now, stamp, faults, id);
      if id in Candidates(w) {
        MarkedIsApproved(w.volumes[id].tags, stamp);
      } else {
        assert id in w.listing;
        assert id !in UnusedIds(w.volumes);
      }
    }
  }

  /** A candidate tagged and recorded in this pass whose validation lookup
      raises loses its record in the same pass, yet keeps its `Delete` tag;
      so no later discovery picks it up again and it is never tracked or
      deleted by the cleanup from then on. */
  lemma LookupFailureOrphans(w: World, now: Time, stamp: string, faults: Faults, c: VolumeId)
    requires c in Candidates(w) && c !in faults.tagging && c !in faults.recording && c in faults.lookup
    ensures var s := ValidatePhase(MarkPhase(w, now, stamp, faults), now, faults);
            && c !in s.items
            && c in s.volumes && s.volumes[c].tags.Some? && s.volumes[c].tags.value[DeleteKey] == "True"
            && c !in UnusedIds(s.volumes)
  {
    var m := MarkPhase(w, now, stamp, faults);
    MarkPhaseTable(w, now, stamp, faults, c);
    MarkPhaseVolumes(w, now, stamp, faults, c);
    LookupFailureForgets(m, now, faults, c);
    MarkedIsApproved(w.volumes[c].tags, stamp);
  }

  // ---------------------------------------------------------------- quirks

  /** `DoNotDelete` is consulted only after the deletion attempt: an
      approved, mature, available volume is deleted even when exempt. */
  lemma ExemptStillDeleted(tags: TagSet, updated: Time, now: Time)
    requires IsApproved(tags) && IsExempt(tags) && now - updated >= SecondsPerDay
    ensures Dispose(Some(Volume(Available, Some(tags))), updated, now, false) == Delete
  {
  }
}
