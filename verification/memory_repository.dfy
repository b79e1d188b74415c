/**
 * The in-memory device repository: one dictionary from identifier to device
 * record, changed in place by create, update and delete.
 */
module MemoryRepository {
  import opened Wrappers
  import opened Devices
  import opened Listing

  /** No key occurs twice in `order`. */
  predicate Distinct(order: seq<string>) {
    forall i, j :: 0 <= i < j < |order| ==> order[i] != order[j]
  }

  /**
   * `order` lists each key of `devices` exactly once: it is the iteration
   * order of a Python dictionary, in which a key keeps the position of its
   * first insertion until it is deleted.
   */
  predicate Indexes(devices: map<string, Device>, order: seq<string>) {
    && (forall i :: 0 <= i < |order| ==> order[i] in devices)
    && (forall k :: k in devices ==> k in order)
    && Distinct(order)
  }

  /** The stored records in dictionary order (Python's `dict.values()`). */
  function Values(devices: map<string, Device>, order: seq<string>): (vs: seq<Device>)
    requires forall i :: 0 <= i < |order| ==> order[i] in devices
    ensures |vs| == |order|
    ensures forall i :: 0 <= i < |order| ==> vs[i] == devices[order[i]]
  {
    seq(|order|, i requires 0 <= i < |order| => devices[order[i]])
  }

  /** `order` without the key `k`: the dictionary order after `del d[k]`. */
  function Remove(order: seq<string>, k: string): (r: seq<string>)
    ensures forall x :: x in r <==> x in order && x != k
  {
    if order == [] then []
    else if order[0] == k then Remove(order[1..], k)
    else [order[0]] + Remove(order[1..], k)
  }

  lemma {:induction false} RemoveKeepsDistinct(order: seq<string>, k: string)
    requires Distinct(order)
    ensures Distinct(Remove(order, k))
  {
    if order != [] {
      RemoveKeepsDistinct(order[1..], k);
      if order[0] != k {
        var rest := Remove(order[1..], k);
        assert order[0] !in rest by {
          assert order[0] !in order[1..];
        }
        forall i, j | 0 <= i < j < |[order[0]] + rest|
          ensures ([order[0]] + rest)[i] != ([order[0]] + rest)[j]
        {
          if i > 0 {
            assert ([order[0]] + rest)[i] == rest[i - 1];
          }
        }
      }
    }
  }

  /** A dictionary has as many entries as its iteration order has keys. */
  lemma {:induction false} IndexedSize(devices: map<string, Device>, order: seq<string>)
    requires Indexes(devices, order)
    ensures |order| == |devices|
  {
    if order == [] {
      assert devices.Keys == {};
    } else {
      var k := order[0];
      var rest := devices - {k};
      assert rest.Keys == devices.Keys - {k};
      forall i | 0 <= i < |order[1..]| ensures order[1..][i] in rest {
        assert order[1..][i] == order[i + 1];
      }
      forall x | x in rest ensures x in order[1..] {
        var i :| 0 <= i < |order| && order[i] == x;
      }
      IndexedSize(rest, order[1..]);
      assert |devices.Keys| == |rest.Keys| + 1;
    }
  }

  class InMemoryDeviceRepository {
    /** The dictionary `_devices`, from identifier to record. */
    var devices: map<string, Device>
    /** The dictionary's iteration order; it decides the listing order of devices created at the same instant. */
    var order: seq<string>

    /** The order covers the dictionary, and every record is stored under its own identifier. */
    ghost predicate Valid()
      reads this
    {
      Indexes(devices, order) && forall k :: k in devices ==> devices[k].id == k
    }

    /** A new repository holds no device. */
    constructor ()
      ensures Valid()
      ensures devices == map[] && order == []
    {
      devices := map[];
      order := [];
    }

    /**
     * The devices sorted newest first, ties in dictionary order, then the
     * window of at most `limit` devices that starts after the first `skip`.
     * The store is not changed.
     */
    method ListDevices(skip: nat, limit: nat) returns (r: seq<Device>)
      requires Valid()
      ensures r == Page(SortNewestFirst(Values(devices, order)), skip, limit)
      ensures |r| <= limit
      ensures |r| <= if skip < |devices| then |devices| - skip else 0
      ensures NewestFirst(r)
      ensures forall d :: d in r ==> d.id in devices && devices[d.id] == d
      ensures skip == 0 && |devices| <= limit ==> forall k :: k in devices ==> devices[k] in r
    {
      var all := Values(devices, order);
      var sorted := SortNewestFirst(all);
      r := Page(sorted, skip, limit);
      IndexedSize(devices, order);
      SortPermutes(all);
      SortOrders(all);
      PageOfOrdered(sorted, skip, limit);
      forall d | d in r ensures d.id in devices && devices[d.id] == d {
        assert d in multiset(sorted);
        var i :| 0 <= i < |all| && all[i] == d;
      }
      if skip == 0 && |devices| <= limit {
        assert r == sorted;
        forall k | k in devices ensures devices[k] in r {
          var i :| 0 <= i < |order| && order[i] == k;
          assert all[i] in multiset(all);
        }
      }
    }

    /** The record stored under `id`, or `None`; the store is not changed. */
    method GetDevice(id: string) returns (r: Option<Device>)
      requires Valid()
      ensures id in devices ==> r == Some(devices[id])
      ensures id !in devices ==> r == None
      ensures r.Some? ==> r.value.id == id
    {
      if id in devices {
        r := Some(devices[id]);
      } else {
        r := None;
      }
    }

    /**
     * Stores a record for `input` under the identifier `newId` drawn by the
     * caller, stamped with `now` as both creation and modification instant.
     * Every other entry is unchanged; a new identifier goes to the end of
     * the dictionary order, a reused one keeps its position.
     */
    method CreateDevice(input: DeviceCreate, newId: string, now: int) returns (d: Device)
      requires Valid()
      modifies this
      ensures Valid()
      ensures d == NewDevice(newId, input, now)
      ensures devices == old(devices)[newId := d]
      ensures order == if newId in old(devices) then old(order) else old(order) + [newId]
    {
      d := NewDevice(newId, input, now);
      if newId !in devices {
        order := order + [newId];
      }
      devices := devices[newId := d];
    }

    /**
     * Merges the supplied fields of `patch` into the record stored under
     * `id`, stamped with `now`, and stores it under the same key; an absent
     * `id` gives `None` and leaves the store as it was (no upsert).
     */
    method UpdateDevice(id: string, patch: DeviceUpdate, now: int) returns (r: Option<Device>)
      requires Valid()
      modifies this
      ensures Valid()
      ensures id !in old(devices) ==> r == None && devices == old(devices)
      ensures id in old(devices) ==>
        r == Some(Merge(old(devices)[id], patch, now)) && devices == old(devices)[id := r.value]
      ensures order == old(order)
    {
      if id !in devices {
        return None;
      }
      var updated := Merge(devices[id], patch, now);
      devices := devices[id := updated];
      r := Some(updated);
    }

    /** Removes the entry under `id` and reports whether there was one; every other entry is unchanged. */
    method DeleteDevice(id: string) returns (removed: bool)
      requires Valid()
      modifies this
      ensures Valid()
      ensures removed == (id in old(devices))
      ensures devices == old(devices) - {id}
      ensures order == Remove(old(order), id)
      ensures !removed ==> devices == old(devices) && order == old(order)
    {
      if id !in devices {
        assert Remove(order, id) == order by {
          RemoveAbsent(order, id);
        }
        return false;
      }
      RemoveKeepsDistinct(order, id);
      devices := devices - {id};
      order := Remove(order, id);
      forall i | 0 <= i < |order| ensures order[i] in devices {
        assert order[i] in order;
      }
      removed := true;
    }
  }

  lemma {:induction false} RemoveAbsent(order: seq<string>, k: string)
    requires k !in order
    ensures Remove(order, k) == order
  {
    if order != [] {
      RemoveAbsent(order[1..], k);
      assert order == [order[0]] + order[1..];
    }
  }
}
