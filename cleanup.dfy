/** One run of the cleanup Lambda. Discovery lists the available volumes that
    carry neither a `DoNotDelete` nor a `Delete` tag; marking tags each of
    them `Delete=True` and records it in the table with the current time;
    validation walks a snapshot of the table and, record by record, forgets
    it, deletes the volume, drops it because of `DoNotDelete`, or leaves it.

    The effect of each phase is also given as a function of the state
    before it (`MarkPhase`, `ValidatePhase`), so that lemmas can relate
    several phases and several passes. */
module CleanupEbs {
  import opened Util
  import opened TagPolicy
  import opened Aws

  /** The ids for which each kind of AWS call raises during one pass. */
  datatype Faults = Faults(
    tagging: set<VolumeId>,    // create_tags
    recording: set<VolumeId>,  // put_item
    lookup: set<VolumeId>,     // describe_volumes of one id
    deleting: set<VolumeId>    // delete_volume
  )

  /** Both services, as a value. */
  datatype World = World(
    volumes: map<VolumeId, Volume>,
    listing: seq<VolumeId>,
    deleted: set<VolumeId>,
    items: map<VolumeId, Time>,
    order: seq<VolumeId>
  )

  /** What the services' own invariants (`Ec2.Valid`, `DynamoDb.Valid`) say. */
  ghost predicate WellFormed(w: World)
  {
    && NoDups(w.listing)
    && (forall id :: id in w.listing <==> id in w.volumes)
    && w.deleted !! w.volumes.Keys
    && NoDups(w.order)
    && (forall id :: id in w.order <==> id in w.items)
  }

  function Observe(ec2: Ec2, dynamodb: DynamoDb): World
    reads ec2, dynamodb
  {
    World(ec2.volumes, ec2.listing, ec2.deleted, dynamodb.items, dynamodb.order)
  }

  // ---------------------------------------------------------------- discovery

  /** The volumes discovery returns: available, and without a `DoNotDelete`
      or `Delete` key (a volume with no tags at all qualifies). */
  function UnusedIds(volumes: map<VolumeId, Volume>): set<VolumeId>
  {
    set id | id in volumes && volumes[id].state == Available && !IsRequiredOrTagged(volumes[id].tags)
  }

  /** Discovery's result, in listing order. */
  function Candidates(w: World): (r: seq<VolumeId>)
    ensures |r| <= |w.listing|
    ensures forall id :: id in r <==>
              && id in w.listing && id in w.volumes && w.volumes[id].state == Available
              && !IsRequiredOrTagged(w.volumes[id].tags)
  {
    Keep(w.listing, UnusedIds(w.volumes))
  }

  // ---------------------------------------------------------------- marking

  /** A volume after the pass has tagged it for deletion. */
  function MarkVolume(v: Volume, stamp: string): (r: Volume)
    ensures r.state == v.state && r.tags.Some?
    ensures DeleteKey in r.tags.value && r.tags.value[DeleteKey] == "True"
    ensures UpdatedByKey in r.tags.value && r.tags.value[UpdatedByKey] == "Cleanup"
    ensures UpdatedOnKey in r.tags.value && r.tags.value[UpdatedOnKey] == stamp
    ensures forall k :: k != DeleteKey && k != UpdatedByKey && k != UpdatedOnKey ==>
              (k in r.tags.value <==> v.tags.Some? && k in v.tags.value) &&
              (k in r.tags.value ==> r.tags.value[k] == v.tags.value[k])
  {
    v.(tags := Some(Tagged(v.tags, DeletionMark(stamp))))
  }

  /** Among `ids`, the volumes whose tagging succeeds. */
  function MarkedIds(w: World, ids: seq<VolumeId>, faults: Faults): set<VolumeId>
  {
    set id | id in ids && id in w.volumes && id !in faults.tagging
  }

  /** Among `ids`, the volumes that are tagged and then recorded. */
  function RecordedIds(w: World, ids: seq<VolumeId>, faults: Faults): set<VolumeId>
  {
    MarkedIds(w, ids, faults) - faults.recording
  }

  /** The inventory after tag-then-record has run for each of `ids`. */
  function MarkedVolumes(w: World, ids: seq<VolumeId>, stamp: string, faults: Faults): map<VolumeId, Volume>
  {
    var marked := MarkedIds(w, ids, faults);
    map id | id in w.volumes :: if id in marked then MarkVolume(w.volumes[id], stamp) else w.volumes[id]
  }

  /** The table after tag-then-record has run for each of `ids`. */
  function MarkedItems(w: World, ids: seq<VolumeId>, now: Time, faults: Faults): map<VolumeId, Time>
  {
    w.items + map id | id in RecordedIds(w, ids, faults) :: now
  }

  /** The scan order after tag-then-record: new keys go last, in turn. */
  function MarkedOrder(w: World, ids: seq<VolumeId>, faults: Faults): seq<VolumeId>
  {
    w.order + Keep(ids, RecordedIds(w, ids, faults) - w.items.Keys)
  }

  /** The state after tag-then-record has run for each of `ids` in turn. */
  function MarkAmong(w: World, ids: seq<VolumeId>, now: Time, stamp: string, faults: Faults): (r: World)
    ensures r.volumes.Keys == w.volumes.Keys && r.listing == w.listing && r.deleted == w.deleted
    ensures forall id :: id in w.volumes && id !in ids ==> r.volumes[id] == w.volumes[id]
    ensures forall id :: id in r.items && id !in ids ==> id in w.items && r.items[id] == w.items[id]
    ensures w.items.Keys <= r.items.Keys
  {
    w.(volumes := MarkedVolumes(w, ids, stamp, faults),
       items := MarkedItems(w, ids, now, faults),
       order := MarkedOrder(w, ids, faults))
  }

  /** The state after the marking loop of the handler. */
  function MarkPhase(w: World, now: Time, stamp: string, faults: Faults): (r: World)
    ensures r.volumes.Keys == w.volumes.Keys && r.listing == w.listing && r.deleted == w.deleted
    ensures w.items.Keys <= r.items.Keys
    ensures forall id :: id in r.items && id !in Candidates(w) ==> id in w.items && r.items[id] == w.items[id]
  {
    MarkAmong(w, Candidates(w), now, stamp, faults)
  }

  /** Before its own turn, a candidate is as it was at the start. */
  lemma MarkUntouched(w: World, ids: seq<VolumeId>, c: VolumeId, now: Time, stamp: string, faults: Faults)
    requires c !in ids
    ensures var vs := MarkedVolumes(w, ids, stamp, faults);
            && (c in vs <==> c in w.volumes)
            && (c in vs ==> vs[c] == w.volumes[c])
    ensures c in MarkedItems(w, ids, now, faults) <==> c in w.items
  {
  }

  /** Tagging one more id `c` changes its volume only, and only when
      `create_tags` succeeds. */
  lemma MarkStepVolumes(w: World, ids: seq<VolumeId>, c: VolumeId, stamp: string, faults: Faults)
    requires c !in ids
    ensures var tagged := c in w.volumes && c !in faults.tagging;
            var vs := MarkedVolumes(w, ids, stamp, faults);
            MarkedVolumes(w, ids + [c], stamp, faults) == if tagged then vs[c := MarkVolume(w.volumes[c], stamp)] else vs
  {
    var tagged := c in w.volumes && c !in faults.tagging;
    assert MarkedIds(w, ids + [c], faults) == MarkedIds(w, ids, faults) + (if tagged then {c} else {});
  }

  /** Recording one more id `c` writes its item only, and only when both
      `create_tags` and `put_item` succeed. */
  lemma MarkStepItems(w: World, ids: seq<VolumeId>, c: VolumeId, now: Time, faults: Faults)
    requires c !in ids
    ensures var recorded := c in w.volumes && c !in faults.tagging && c !in faults.recording;
            var its := MarkedItems(w, ids, now, faults);
            MarkedItems(w, ids + [c], now, faults) == if recorded then its[c := now] else its
  {
    var recorded := c in w.volumes && c !in faults.tagging && c !in faults.recording;
    assert RecordedIds(w, ids + [c], faults) == RecordedIds(w, ids, faults) + (if recorded then {c} else {});
  }

  /** A newly recorded id goes to the end of the scan order. */
  lemma MarkStepOrder(w: World, ids: seq<VolumeId>, c: VolumeId, faults: Faults)
    requires c !in ids
    ensures var recorded := c in w.volumes && c !in faults.tagging && c !in faults.recording;
            var o := MarkedOrder(w, ids, faults);
            MarkedOrder(w, ids + [c], faults) == if recorded && c !in w.items then o + [c] else o
  {
    var ids' := ids + [c];
    assert ids'[..|ids'| - 1] == ids;
    var recorded := c in w.volumes && c !in faults.tagging && c !in faults.recording;
    assert RecordedIds(w, ids', faults) == RecordedIds(w, ids, faults) + (if recorded then {c} else {});
    var fresh' := RecordedIds(w, ids', faults) - w.items.Keys;
    assert Keep(ids', fresh') == Keep(ids, fresh') + (if c in fresh' then [c] else []);
    KeepSameOn(ids, fresh', RecordedIds(w, ids, faults) - w.items.Keys);
  }

  /** The effect of tag-then-record on one candidate `c`: `create_tags`
      marks it unless it raises, and only then does `put_item` record it. */
  function MarkOne(s: World, c: VolumeId, now: Time, stamp: string, faults: Faults): (r: World)
    ensures r.volumes.Keys == s.volumes.Keys && r.listing == s.listing && r.deleted == s.deleted
    ensures forall id :: id in s.volumes && id != c ==> r.volumes[id] == s.volumes[id]
    ensures forall id :: id != c ==> (id in r.items <==> id in s.items) && (id in r.items ==> r.items[id] == s.items[id])
    ensures c in s.volumes && c !in faults.tagging && c !in faults.recording ==> c in r.items && r.items[c] == now
    ensures !(c in s.volumes && c !in faults.tagging && c !in faults.recording) ==> r.items == s.items
    ensures c in faults.tagging ==> r == s
  {
    var tagged := c in s.volumes && c !in faults.tagging;
    var recorded := tagged && c !in faults.recording;
    s.(volumes := if tagged then s.volumes[c := MarkVolume(s.volumes[c], stamp)] else s.volumes,
       items := if recorded then s.items[c := now] else s.items,
       order := if recorded && c !in s.items then s.order + [c] else s.order)
  }

  /** Marking no candidate changes nothing. */
  lemma MarkNone(w: World, now: Time, stamp: string, faults: Faults)
    ensures MarkAmong(w, [], now, stamp, faults) == w
  {
    assert MarkedVolumes(w, [], stamp, faults) == w.volumes;
    assert MarkedItems(w, [], now, faults) == w.items;
  }

  /** Marking the candidates one after the other is `MarkAmong`. */
  lemma MarkAmongSnoc(w: World, ids: seq<VolumeId>, c: VolumeId, now: Time, stamp: string, faults: Faults)
    requires c !in ids
    ensures MarkAmong(w, ids + [c], now, stamp, faults) == MarkOne(MarkAmong(w, ids, now, stamp, faults), c, now, stamp, faults)
  {
    MarkUntouched(w, ids, c, now, stamp, faults);
    MarkStepVolumes(w, ids, c, stamp, faults);
    MarkStepItems(w, ids, c, now, faults);
    MarkStepOrder(w, ids, c, faults);
  }

  // ---------------------------------------------------------------- validation

  /** What validation does with one record. */
  datatype Disposition =
    | Forget   // the lookup raised: the record is removed
    | Delete   // the volume is deleted, reported, and its record removed
    | Exempt   // the volume carries DoNotDelete: the record is removed
    | Retry    // deletion was attempted and raised: the record stays
    | Wait     // not approved or not mature: the record stays

  predicate DropsRecord(d: Disposition)
  {
    d == Forget || d == Delete || d == Exempt
  }

  /** The disposition of a record stored at `updated`, given the volume the
      lookup returned (`None` when it raised) and whether `delete_volume`
      raises for a reason other than the volume being in use. */
  function Dispose(found: Option<Volume>, updated: Time, now: Time, deleteFails: bool): (d: Disposition)
    ensures d == Forget <==> found.None? || found.value.tags.None?
    ensures d == Delete ==>
              && found.Some? && found.value.tags.Some?
              && IsApproved(found.value.tags.value) && IsMature(updated, now)
              && !deleteFails && found.value.state == Available
    ensures (&& found.Some? && found.value.tags.Some?
             && IsApproved(found.value.tags.value) && IsMature(updated, now)
             && !deleteFails && found.value.state == Available) ==> d == Delete
    ensures d == Retry ==> found.Some? && found.value.tags.Some? && !IsExempt(found.value.tags.value)
    ensures found.Some? && found.value.tags.Some? && IsExempt(found.value.tags.value) ==> DropsRecord(d)
    ensures (&& found.Some? && found.value.tags.Some? && !IsExempt(found.value.tags.value)
             && !(IsApproved(found.value.tags.value) && IsMature(updated, now))) ==> d == Wait
    ensures updated == now ==> d != Delete
  {
    if found.None? || found.value.tags.None? then Forget
    else
      var tags := found.value.tags.value;
      var attempt := DelayDays(updated, now) >= 1 && IsApproved(tags);
      if attempt && !deleteFails && found.value.state == Available then Delete
      else if IsExempt(tags) then Exempt
      else if attempt then Retry
      else Wait
  }

  /** The lookup result for `id` during validation. */
  function Lookup(volumes: map<VolumeId, Volume>, id: VolumeId, faults: Faults): (r: Option<Volume>)
    ensures r.Some? <==> id in volumes && id !in faults.lookup
    ensures r.Some? ==> r.value == volumes[id]
  {
    if id in faults.lookup || id !in volumes then None else Some(volumes[id])
  }

  function FateOf(w: World, id: VolumeId, now: Time, faults: Faults): Disposition
    requires id in w.items
  {
    Dispose(Lookup(w.volumes, id, faults), w.items[id], now, id in faults.deleting)
  }

  /** The volumes validation deletes. */
  function DeletedIds(w: World, now: Time, faults: Faults): set<VolumeId>
  {
    set id | id in w.items && FateOf(w, id, now, faults) == Delete
  }

  /** The records validation removes. */
  function DroppedIds(w: World, now: Time, faults: Faults): set<VolumeId>
  {
    set id | id in w.items && DropsRecord(FateOf(w, id, now, faults))
  }

  /** The state once the volumes `del` have been deleted and the records
      `drop` removed. */
  function Apply(w: World, del: set<VolumeId>, drop: set<VolumeId>): World
  {
    World(w.volumes - del, Without(w.listing, del), w.deleted + del, w.items - drop, Without(w.order, drop))
  }

  /** The state after validation. */
  function ValidatePhase(w: World, now: Time, faults: Faults): (r: World)
    ensures r.volumes.Keys <= w.volumes.Keys && r.items.Keys <= w.items.Keys
    ensures w.deleted <= r.deleted
    ensures forall id :: id in r.volumes ==> r.volumes[id] == w.volumes[id]
    ensures forall id :: id in r.items ==> r.items[id] == w.items[id]
  {
    Apply(w, DeletedIds(w, now, faults), DroppedIds(w, now, faults))
  }

  /** The list validation returns: the deleted ids in scan order. */
  function DeletedList(w: World, now: Time, faults: Faults): (r: seq<VolumeId>)
    ensures |r| <= |w.order|
    ensures forall id :: id in r ==> id in w.order && id in w.items && id in w.volumes && id !in faults.deleting
  {
    Keep(w.order, DeletedIds(w, now, faults))
  }

  /** The effect of settling one record whose disposition is `d`: a deleted
      volume leaves the inventory, a dropped record leaves the table. */
  function SettleOne(s: World, vol: VolumeId, d: Disposition): (r: World)
    ensures r.volumes.Keys == if d == Delete then s.volumes.Keys - {vol} else s.volumes.Keys
    ensures r.items.Keys == if DropsRecord(d) then s.items.Keys - {vol} else s.items.Keys
    ensures r.deleted == if d == Delete then s.deleted + {vol} else s.deleted
    ensures forall id :: id in r.volumes ==> r.volumes[id] == s.volumes[id]
    ensures forall id :: id in r.items ==> r.items[id] == s.items[id]
  {
    var gone := d == Delete;
    var dropped := DropsRecord(d);
    World(if gone then s.volumes - {vol} else s.volumes,
          if gone then Without(s.listing, {vol}) else s.listing,
          if gone then s.deleted + {vol} else s.deleted,
          if dropped then s.items - {vol} else s.items,
          if dropped then Without(s.order, {vol}) else s.order)
  }

  /** The state once the records `ids` of the snapshot `w` have been
      settled one after the other. */
  ghost function SettledPrefix(w: World, ids: seq<VolumeId>, now: Time, faults: Faults): World
    requires forall id :: id in ids ==> id in w.items
  {
    if ids == [] then w
    else
      var k := |ids| - 1;
      SettleOne(SettledPrefix(w, ids[..k], now, faults), ids[k], FateOf(w, ids[k], now, faults))
  }

  /** The state once the records of `done` have been settled. */
  ghost function Settled(w: World, done: set<VolumeId>, now: Time, faults: Faults): World
  {
    Apply(w, DeletedIds(w, now, faults) * done, DroppedIds(w, now, faults) * done)
  }

  /** Deleting and dropping nothing changes nothing. */
  lemma ApplyNone(w: World)
    ensures Apply(w, {}, {}) == w
  {
    WithoutAbsent(w.listing, {});
    WithoutAbsent(w.order, {});
  }

  /** Deleting or dropping one more id is one `SettleOne` step. */
  lemma ApplyStep(w: World, del: set<VolumeId>, drop: set<VolumeId>, vol: VolumeId, d: Disposition)
    ensures Apply(w, del + (if d == Delete then {vol} else {}), drop + (if DropsRecord(d) then {vol} else {}))
            == SettleOne(Apply(w, del, drop), vol, d)
  {
    var del' := del + (if d == Delete then {vol} else {});
    var drop' := drop + (if DropsRecord(d) then {vol} else {});
    var t := SettleOne(Apply(w, del, drop), vol, d);
    if d == Delete {
      WithoutWithout(w.listing, del, {vol});
      MapMinusMinus(w.volumes, del, {vol});
    } else {
      assert del' == del;
    }
    if DropsRecord(d) {
      WithoutWithout(w.order, drop, {vol});
      MapMinusMinus(w.items, drop, {vol});
    } else {
      assert drop' == drop;
    }
  }

  /** Settling no record changes nothing. */
  lemma SettledNone(w: World, now: Time, faults: Faults)
    ensures Settled(w, {}, now, faults) == w
  {
    assert DeletedIds(w, now, faults) * {} == {};
    assert DroppedIds(w, now, faults) * {} == {};
    ApplyNone(w);
  }

  /** Settling one more record is one `SettleOne` step. */
  lemma SettledStep(w: World, done: set<VolumeId>, vol: VolumeId, now: Time, faults: Faults)
    requires vol in w.items && vol !in done
    ensures Settled(w, done + {vol}, now, faults) == SettleOne(Settled(w, done, now, faults), vol, FateOf(w, vol, now, faults))
  {
    var del := DeletedIds(w, now, faults);
    var drop := DroppedIds(w, now, faults);
    var d := FateOf(w, vol, now, faults);
    assert vol in del <==> d == Delete;
    assert vol in drop <==> DropsRecord(d);
    IntersectStep(del, done, vol);
    IntersectStep(drop, done, vol);
    ApplyStep(w, del * done, drop * done, vol, d);
  }

  /** Settling one more record after `ids`. */
  lemma SettledPrefixSnoc(w: World, ids: seq<VolumeId>, vol: VolumeId, now: Time, faults: Faults)
    requires forall id :: id in ids ==> id in w.items
    requires vol in w.items
    ensures SettledPrefix(w, ids + [vol], now, faults) ==
            SettleOne(SettledPrefix(w, ids, now, faults), vol, FateOf(w, vol, now, faults))
  {
    assert (ids + [vol])[..|ids|] == ids;
  }

  /** Settling records one by one is settling the set of them at once. */
  lemma {:induction false} PrefixIsSettled(w: World, ids: seq<VolumeId>, now: Time, faults: Faults)
    requires NoDups(ids)
    requires forall id :: id in ids ==> id in w.items
    ensures SettledPrefix(w, ids, now, faults) == Settled(w, Elements(ids), now, faults)
  {
    if ids == [] {
      assert Elements(ids) == {};
      SettledNone(w, now, faults);
    } else {
      var k := |ids| - 1;
      var init := ids[..k];
      NoDupsInit(ids);
      PrefixIsSettled(w, init, now, faults);
      var done := Elements(init);
      assert ids == init + [ids[k]];
      ElementsSnoc(init, ids[k]);
      SettledStep(w, done, ids[k], now, faults);
    }
  }

  /** Settling every record of the snapshot is the whole validation phase. */
  lemma SettledAll(w: World, now: Time, faults: Faults)
    requires WellFormed(w)
    ensures forall id :: id in w.order ==> id in w.items
    ensures SettledPrefix(w, w.order, now, faults) == ValidatePhase(w, now, faults)
  {
    PrefixIsSettled(w, w.order, now, faults);
    var done := Elements(w.order);
    assert DeletedIds(w, now, faults) * done == DeletedIds(w, now, faults);
    assert DroppedIds(w, now, faults) * done == DroppedIds(w, now, faults);
  }

  /** A volume whose record is not among `ids` is as it was in `w`. */
  lemma {:induction false} PrefixUntouched(w: World, ids: seq<VolumeId>, vol: VolumeId, now: Time, faults: Faults)
    requires forall id :: id in ids ==> id in w.items
    requires vol !in ids
    ensures var s := SettledPrefix(w, ids, now, faults);
            && (vol in s.volumes <==> vol in w.volumes)
            && (vol in s.volumes ==> s.volumes[vol] == w.volumes[vol])
  {
    if ids != [] {
      var k := |ids| - 1;
      assert ids == ids[..k] + [ids[k]];
      PrefixUntouched(w, ids[..k], vol, now, faults);
    }
  }

  // ---------------------------------------------------------------- the class

  /** The `Cleanup` class; `ec2` and `dynamodb` are the module-level clients
      it works through. */
  class Cleanup {
    const ec2: Ec2
    const dynamodb: DynamoDb

    constructor (ec2: Ec2, dynamodb: DynamoDb)
      ensures this.ec2 == ec2 && this.dynamodb == dynamodb
    {
      this.ec2 := ec2;
      this.dynamodb := dynamodb;
    }

    /** The available volumes that carry neither `DoNotDelete` nor `Delete`,
        in listing order; one without tags is included. */
    method FindUnusedEbsVolumes() returns (volumeId: seq<VolumeId>)
      requires ec2.Valid()
      ensures volumeId == Keep(ec2.listing, UnusedIds(ec2.volumes))
      ensures NoDups(volumeId)
      ensures forall id :: id in volumeId <==>
                && id in ec2.volumes && ec2.volumes[id].state == Available
                && (ec2.volumes[id].tags.None? ||
                    (DoNotDeleteKey !in ec2.volumes[id].tags.value && DeleteKey !in ec2.volumes[id].tags.value))
    {
      var response := ec2.DescribeAvailable();
      volumeId := [];
      var i := 0;
      while i < |response|
        invariant 0 <= i <= |response|
        invariant volumeId == Keep(response[..i], UnusedIds(ec2.volumes))
      {
        var vol := response[i];
        var ebsRequiredOrTagged := IsRequiredOrTagged(ec2.volumes[vol].tags);
        if !ebsRequiredOrTagged {
          volumeId := volumeId + [vol];
        }
        assert response[..i + 1][..i] == response[..i];
        i := i + 1;
      }
      assert response[..i] == response;
      KeepKeep(ec2.listing, AvailableIds(ec2.volumes), UnusedIds(ec2.volumes));
      assert AvailableIds(ec2.volumes) * UnusedIds(ec2.volumes) == UnusedIds(ec2.volumes);
      KeepNoDups(ec2.listing, UnusedIds(ec2.volumes));
    }

    /** Records `volumeId` with the time `now`, overwriting any earlier
        record; raises when `put_item` does. */
    method UpdateDynamodb(volumeId: VolumeId, now: Time, fails: bool) returns (ok: bool)
      requires dynamodb.Valid()
      modifies dynamodb
      ensures dynamodb.Valid()
      ensures ok == !fails
      ensures dynamodb.items == if ok then old(dynamodb.items)[volumeId := now] else old(dynamodb.items)
      ensures dynamodb.order == if ok && volumeId !in old(dynamodb.items) then old(dynamodb.order) + [volumeId]
                                else old(dynamodb.order)
    {
      ok := dynamodb.PutItem(volumeId, now, fails);
    }

    /** Tags the volume `Delete=True`, `TagUpdatedBy=Cleanup`,
        `CleanupTagUpdatedOn=stamp`; the other tags and volumes stay. */
    method UpdateDeleteTagOfEbsVolume(volumeId: VolumeId, stamp: string, fails: bool) returns (ok: bool)
      requires ec2.Valid()
      modifies ec2
      ensures ec2.Valid()
      ensures ok == (!fails && volumeId in old(ec2.volumes))
      ensures ec2.volumes == if ok then old(ec2.volumes)[volumeId := MarkVolume(old(ec2.volumes)[volumeId], stamp)]
                             else old(ec2.volumes)
      ensures ec2.listing == old(ec2.listing) && ec2.deleted == old(ec2.deleted)
    {
      ok := ec2.CreateTags(volumeId, DeletionMark(stamp), fails);
    }

    /** Removes the `Delete` and `TagUpdatedBy` tags of the volume. */
    method RemoveDeleteTagOfEbsVolume(volumeId: VolumeId, fails: bool) returns (ok: bool)
      requires ec2.Valid()
      modifies ec2
      ensures ec2.Valid()
      ensures ok == (!fails && volumeId in old(ec2.volumes))
      ensures ok ==> ec2.volumes == old(ec2.volumes)[volumeId := old(ec2.volumes)[volumeId].(tags :=
                       Untagged(old(ec2.volumes)[volumeId].tags, {DeleteKey, UpdatedByKey}))]
      ensures !ok ==> ec2.volumes == old(ec2.volumes)
      ensures ec2.listing == old(ec2.listing) && ec2.deleted == old(ec2.deleted)
    {
      ok := ec2.DeleteTags(volumeId, {DeleteKey, UpdatedByKey}, fails);
    }

    /** Removes the record of `vol`; removing an absent record changes
        nothing. */
    method RemoveEntryFromDynamodb(vol: VolumeId)
      requires dynamodb.Valid()
      modifies dynamodb
      ensures dynamodb.Valid()
      ensures dynamodb.items == old(dynamodb.items) - {vol}
      ensures dynamodb.order == Without(old(dynamodb.order), {vol})
      ensures vol !in old(dynamodb.items) ==> dynamodb.items == old(dynamodb.items) && dynamodb.order == old(dynamodb.order)
    {
      dynamodb.DeleteItem(vol);
    }

    /** Settles the record (`vol`, `updated`): looks the volume up, deletes
        it when approved and mature, and drops the record as `Dispose` says.
        Returns whether the volume was deleted. */
    method ValidateEntry(vol: VolumeId, updated: Time, now: Time, faults: Faults) returns (gone: bool)
      requires ec2.Valid() && dynamodb.Valid()
      modifies ec2, dynamodb
      ensures ec2.Valid() && dynamodb.Valid()
      ensures var d := Dispose(Lookup(old(ec2.volumes), vol, faults), updated, now, vol in faults.deleting);
              && gone == (d == Delete)
              && Observe(ec2, dynamodb) == SettleOne(old(Observe(ec2, dynamodb)), vol, d)
    {
      gone := false;
      var found := ec2.DescribeVolume(vol, vol in faults.lookup);
      if found.None? || found.value.tags.None? {
        dynamodb.DeleteItem(vol);
        RemoveEntryFromDynamodb(vol);
        WithoutTwice(old(dynamodb.order), vol);
        return;
      }
      var tags := found.value.tags.value;
      var delete := IsApproved(tags);
      var delay := DelayDays(updated, now);
      if delay >= 1 && delete {
        gone := ec2.DeleteVolume(vol, vol in faults.deleting);
        if gone {
          RemoveEntryFromDynamodb(vol);
        }
      }
      if IsExempt(tags) {
        RemoveEntryFromDynamodb(vol);
        if gone {
          WithoutTwice(old(dynamodb.order), vol);
        }
      }
    }

    /** Walks a snapshot of the table and settles each record as `Dispose`
        says; returns the deleted ids in scan order. */
    method ValidateDynamodbEntries(now: Time, faults: Faults) returns (listofdel: seq<VolumeId>)
      requires ec2.Valid() && dynamodb.Valid()
      modifies ec2, dynamodb
      ensures ec2.Valid() && dynamodb.Valid()
      ensures Observe(ec2, dynamodb) == ValidatePhase(old(Observe(ec2, dynamodb)), now, faults)
      ensures listofdel == DeletedList(old(Observe(ec2, dynamodb)), now, faults)
    {
      ghost var w0 := Observe(ec2, dynamodb);
      listofdel := [];
      var dynamodbItems := dynamodb.Scan();
      assert WellFormed(w0);
      var i := 0;
      while i < |dynamodbItems|
        invariant 0 <= i <= |dynamodbItems| == |w0.order|
        invariant ec2.Valid() && dynamodb.Valid()
        invariant Observe(ec2, dynamodb) == SettledPrefix(w0, w0.order[..i], now, faults)
        invariant listofdel == Keep(w0.order[..i], DeletedIds(w0, now, faults))
      {
        var vol := dynamodbItems[i].volumeId;
        var updated := dynamodbItems[i].updated;
        assert vol == w0.order[i] && updated == w0.items[vol];
        ghost var before := Observe(ec2, dynamodb);
        var gone := ValidateEntry(vol, updated, now, faults);
        ValidateStep(w0, i, before, Observe(ec2, dynamodb), gone, now, faults);
        assert Observe(ec2, dynamodb) == SettledPrefix(w0, w0.order[..i + 1], now, faults);
        if gone {
          listofdel := listofdel + [vol];
        }
        assert listofdel == Keep(w0.order[..i + 1], DeletedIds(w0, now, faults));
        i := i + 1;
      }
      assert w0.order[..i] == w0.order;
      SettledAll(w0, now, faults);
    }
  }

  /** One step of the validation loop: settling the i-th record of the
      snapshot, as the volume stands after the earlier records, extends the
      settled prefix, and the volume is deleted exactly when its fate in the
      snapshot says so. */
  lemma ValidateStep(w0: World, i: nat, before: World, after: World, gone: bool, now: Time, faults: Faults)
    requires WellFormed(w0) && i < |w0.order|
    requires before == SettledPrefix(w0, w0.order[..i], now, faults)
    requires var vol := w0.order[i];
             var d := Dispose(Lookup(before.volumes, vol, faults), w0.items[vol], now, vol in faults.deleting);
             && gone == (d == Delete)
             && after == SettleOne(before, vol, d)
    ensures after == SettledPrefix(w0, w0.order[..i + 1], now, faults)
    ensures Keep(w0.order[..i + 1], DeletedIds(w0, now, faults)) ==
            Keep(w0.order[..i], DeletedIds(w0, now, faults)) + (if gone then [w0.order[i]] else [])
  {
    var vol := w0.order[i];
    TakeStep(w0.order, i);
    PrefixUntouched(w0, w0.order[..i], vol, now, faults);
    SettledPrefixSnoc(w0, w0.order[..i], vol, now, faults);
    KeepSnoc(w0.order[..i], vol, DeletedIds(w0, now, faults));
    assert Lookup(before.volumes, vol, faults) == Lookup(w0.volumes, vol, faults);
    assert vol in DeletedIds(w0, now, faults) <==> FateOf(w0, vol, now, faults) == Delete;
  }

  /** The handler's loop: tag each candidate, and record it only when the
      tagging succeeded. */
  method MarkCandidates(clean: Cleanup, volumeId: seq<VolumeId>, now: Time, stamp: string, faults: Faults)
    requires clean.ec2.Valid() && clean.dynamodb.Valid()
    requires NoDups(volumeId)
    modifies clean.ec2, clean.dynamodb
    ensures clean.ec2.Valid() && clean.dynamodb.Valid()
    ensures Observe(clean.ec2, clean.dynamodb) == MarkAmong(old(Observe(clean.ec2, clean.dynamodb)), volumeId, now, stamp, faults)
  {
    ghost var w0 := Observe(clean.ec2, clean.dynamodb);
    MarkNone(w0, now, stamp, faults);
    assert volumeId[..0] == [];
    for i := 0 to |volumeId|
      invariant clean.ec2.Valid() && clean.dynamodb.Valid()
      invariant Observe(clean.ec2, clean.dynamodb) == MarkAmong(w0, volumeId[..i], now, stamp, faults)
    {
      var vol := volumeId[i];
      TakeStep(volumeId, i);
      MarkAmongSnoc(w0, volumeId[..i], vol, now, stamp, faults);
      ghost var before := Observe(clean.ec2, clean.dynamodb);
      var ebsTag := clean.UpdateDeleteTagOfEbsVolume(vol, stamp, vol in faults.tagging);
      if ebsTag {
        var update := clean.UpdateDynamodb(vol, now, vol in faults.recording);
      }
      assert Observe(clean.ec2, clean.dynamodb) == MarkOne(before, vol, now, stamp, faults);
      assert Observe(clean.ec2, clean.dynamodb) == MarkAmong(w0, volumeId[..i + 1], now, stamp, faults);
    }
    assert volumeId[..|volumeId|] == volumeId;
  }

  /** The handler: discovery, then tag-and-record for each candidate (a
      failed tag skips the record), then validation. Returns the two lists
      the summary e-mail reports. */
  method LambdaHandler(ec2: Ec2, dynamodb: DynamoDb, now: Time, stamp: string, faults: Faults)
    returns (volumeId: seq<VolumeId>, response: seq<VolumeId>)
    requires ec2.Valid() && dynamodb.Valid()
    modifies ec2, dynamodb
    ensures ec2.Valid() && dynamodb.Valid()
    ensures volumeId == Candidates(old(Observe(ec2, dynamodb)))
    ensures Observe(ec2, dynamodb) ==
            ValidatePhase(MarkPhase(old(Observe(ec2, dynamodb)), now, stamp, faults), now, faults)
    ensures response == DeletedList(MarkPhase(old(Observe(ec2, dynamodb)), now, stamp, faults), now, faults)
  {
    var clean := new Cleanup(ec2, dynamodb);
    volumeId := clean.FindUnusedEbsVolumes();
    MarkCandidates(clean, volumeId, now, stamp, faults);
    response := clean.ValidateDynamodbEntries(now, faults);
  }
}
