/** The two AWS services the cleanup pass changes, held as plain state: the
    EC2 volume inventory and the DynamoDB tracking table `cleanup`. Each
    boto3 call the pass makes is a method here; a call that raises returns
    `false`, and whether it raises is decided by a `fails` argument (the
    model's stand-in for throttling, permissions and other outages) together
    with the state (a missing volume, a volume still in use). */
module Aws {
  import opened Util
  import opened TagPolicy

  type VolumeId = string

  /** `InUse` stands for every status other than 'available'. */
  datatype VolumeState = Available | InUse

  /** A volume as `describe_volumes` reports it; `tags` is `None` when the
      response has no 'Tags' field. */
  datatype Volume = Volume(state: VolumeState, tags: Option<TagSet>)

  /** The volumes whose status is 'available'. */
  function AvailableIds(volumes: map<VolumeId, Volume>): set<VolumeId>
  {
    set id | id in volumes && volumes[id].state == Available
  }

  /** The EC2 inventory: every volume by id, the order in which
      `describe_volumes` lists them, and the ids deleted so far. */
  class Ec2 {
    var volumes: map<VolumeId, Volume>
    var listing: seq<VolumeId>
    var deleted: set<VolumeId>

    ghost predicate Valid()
      reads this
    {
      && NoDups(listing)
      && (forall id :: id in listing <==> id in volumes)
      && deleted !! volumes.Keys
    }

    constructor (volumes: map<VolumeId, Volume>, listing: seq<VolumeId>)
      requires NoDups(listing)
      requires forall id :: id in listing <==> id in volumes
      ensures Valid()
      ensures this.volumes == volumes && this.listing == listing && deleted == {}
    {
      this.volumes := volumes;
      this.listing := listing;
      this.deleted := {};
    }

    /** `describe_volumes` filtered on status 'available': the ids of the
        available volumes, in listing order. */
    function DescribeAvailable(): (r: seq<VolumeId>)
      reads this
      ensures forall id :: id in r <==> id in listing && id in volumes && volumes[id].state == Available
    {
      Keep(listing, AvailableIds(volumes))
    }

    /** `describe_volumes` of one id: `None` when the call raises, which it
        does for a volume that no longer exists. */
    method DescribeVolume(id: VolumeId, fails: bool) returns (r: Option<Volume>)
      ensures r.Some? <==> !fails && id in volumes
      ensures r.Some? ==> r.value == volumes[id]
    {
      r := if fails || id !in volumes then None else Some(volumes[id]);
    }

    /** `create_tags`: fails on a missing volume; otherwise writes `added`
        over the volume's tags. */
    method CreateTags(id: VolumeId, added: TagSet, fails: bool) returns (ok: bool)
      requires Valid()
      modifies this
      ensures Valid()
      ensures ok == (!fails && id in old(volumes))
      ensures volumes == if ok then old(volumes)[id := old(volumes)[id].(tags := Some(Tagged(old(volumes)[id].tags, added)))]
                         else old(volumes)
      ensures listing == old(listing) && deleted == old(deleted)
    {
      ok := !fails && id in volumes;
      if ok {
        volumes := volumes[id := volumes[id].(tags := Some(Tagged(volumes[id].tags, added)))];
      }
    }

    /** `delete_tags`: fails on a missing volume; otherwise removes `keys`. */
    method DeleteTags(id: VolumeId, keys: set<string>, fails: bool) returns (ok: bool)
      requires Valid()
      modifies this
      ensures Valid()
      ensures ok == (!fails && id in old(volumes))
      ensures volumes == if ok then old(volumes)[id := old(volumes)[id].(tags := Untagged(old(volumes)[id].tags, keys))]
                         else old(volumes)
      ensures listing == old(listing) && deleted == old(deleted)
    {
      ok := !fails && id in volumes;
      if ok {
        volumes := volumes[id := volumes[id].(tags := Untagged(volumes[id].tags, keys))];
      }
    }

    /** `delete_volume`: fails on a missing volume and on one still in use;
        otherwise the volume leaves the inventory for good. */
    method DeleteVolume(id: VolumeId, fails: bool) returns (ok: bool)
      requires Valid()
      modifies this
      ensures Valid()
      ensures ok == (!fails && id in old(volumes) && old(volumes)[id].state == Available)
      ensures volumes == if ok then old(volumes) - {id} else old(volumes)
      ensures listing == if ok then Without(old(listing), {id}) else old(listing)
      ensures deleted == if ok then old(deleted) + {id} else old(deleted)
    {
      ok := !fails && id in volumes && volumes[id].state == Available;
      if ok {
        WithoutNoDups(listing, {id});
        volumes := volumes - {id};
        listing := Without(listing, {id});
        deleted := deleted + {id};
      }
    }
  }

  /** One item of the table: the volume id and the time it was stored. */
  datatype Record = Record(volumeId: VolumeId, updated: Time)

  function Records(ids: seq<VolumeId>, items: map<VolumeId, Time>): (r: seq<Record>)
    requires forall id :: id in ids ==> id in items
    ensures |r| == |ids|
    ensures forall i :: 0 <= i < |ids| ==> r[i] == Record(ids[i], items[ids[i]])
  {
    if ids == [] then [] else [Record(ids[0], items[ids[0]])] + Records(ids[1..], items)
  }

  /** The DynamoDB table `cleanup`, keyed by volume id, and the order in which
      the model's `scan` returns its items. DynamoDB's own order follows the
      hashed key; the model chooses the order of first write instead (a new
      key goes last). */
  class DynamoDb {
    var items: map<VolumeId, Time>
    var order: seq<VolumeId>

    ghost predicate Valid()
      reads this
    {
      && NoDups(order)
      && (forall id :: id in order <==> id in items)
    }

    constructor (items: map<VolumeId, Time>, order: seq<VolumeId>)
      requires NoDups(order)
      requires forall id :: id in order <==> id in items
      ensures Valid()
      ensures this.items == items && this.order == order
    {
      this.items := items;
      this.order := order;
    }

    /** `put_item`: a plain write, so an existing item is overwritten. */
    method PutItem(id: VolumeId, updated: Time, fails: bool) returns (ok: bool)
      requires Valid()
      modifies this
      ensures Valid()
      ensures ok == !fails
      ensures items == if ok then old(items)[id := updated] else old(items)
      ensures order == if ok && id !in old(items) then old(order) + [id] else old(order)
    {
      ok := !fails;
      if ok {
        if id !in items {
          order := order + [id];
        }
        items := items[id := updated];
      }
    }

    /** `delete_item`: removes the key; a missing key is not an error. */
    method DeleteItem(id: VolumeId)
      requires Valid()
      modifies this
      ensures Valid()
      ensures items == old(items) - {id}
      ensures order == Without(old(order), {id})
      ensures id !in old(items) ==> items == old(items) && order == old(order)
    {
      if id in items {
        WithoutNoDups(order, {id});
        var rest := Without(order, {id});
        assert forall x :: x in rest <==> x in items && x != id;
        items := items - {id};
        order := rest;
      } else {
        WithoutAbsent(order, {id});
        assert items - {id} == items;
      }
    }

    /** `scan`: a snapshot of every item, in scan order. */
    function Scan(): (r: seq<Record>)
      reads this
      requires Valid()
      ensures |r| == |order|
      ensures forall i :: 0 <= i < |order| ==> r[i] == Record(order[i], items[order[i]])
    {
      Records(order, items)
    }
  }
}
