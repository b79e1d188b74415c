/**
 * The device record kept by the repositories and the two request shapes
 * that create and update it.
 */
module Devices {
  import opened Wrappers

  /** A stored device. Timestamps are instants on an integer clock. */
  datatype Device = Device(
    id: string,
    name: string,
    assignedTo: Option<string>,
    createdAt: int,
    updatedAt: int)

  /** The body of a create request: a name and an optional assignee. */
  datatype DeviceCreate = DeviceCreate(name: string, assignedTo: Option<string>)

  /** The body of an update request: every field is optional. */
  datatype DeviceUpdate = DeviceUpdate(name: Option<string>, assignedTo: Option<string>)

  /** The record a create request produces under identifier `id` at instant `now`. */
  function NewDevice(id: string, input: DeviceCreate, now: int): (d: Device)
    ensures d.id == id
    ensures d.name == input.name && d.assignedTo == input.assignedTo
    ensures d.createdAt == d.updatedAt == now
  {
    Device(id, input.name, input.assignedTo, now, now)
  }

  /**
   * The record an update request produces from the stored record `existing`
   * at instant `now`: a supplied field overrides the stored one, an absent
   * field keeps it, the identifier and creation instant never change, and
   * the modification instant becomes `now`.
   */
  function Merge(existing: Device, patch: DeviceUpdate, now: int): (d: Device)
    ensures d.id == existing.id && d.createdAt == existing.createdAt
    ensures d.updatedAt == now
    ensures patch.name.None? ==> d.name == existing.name
    ensures patch.name.Some? ==> d.name == patch.name.value
    ensures patch.assignedTo.None? ==> d.assignedTo == existing.assignedTo
    ensures patch.assignedTo.Some? ==> d.assignedTo == patch.assignedTo
    ensures existing.createdAt <= now ==> d.createdAt <= d.updatedAt
  {
    Device(
      existing.id,
      if patch.name.Some? then patch.name.value else existing.name,
      if patch.assignedTo.Some? then patch.assignedTo else existing.assignedTo,
      existing.createdAt,
      now)
  }

  /** Applying the same update twice at the same instant changes nothing more than applying it once. */
  lemma MergeIdempotent(existing: Device, patch: DeviceUpdate, now: int)
    ensures Merge(Merge(existing, patch, now), patch, now) == Merge(existing, patch, now)
  {
  }

  /** An update that supplies no field only refreshes the modification instant. */
  lemma MergeEmptyPatch(existing: Device, now: int)
    ensures Merge(existing, DeviceUpdate(None, None), now) == existing.(updatedAt := now)
  {
  }

  /**
   * Since an absent `assigned_to` means "keep", no update can turn an
   * assigned device back into an unassigned one.
   */
  lemma AssignmentIsSticky(existing: Device, patch: DeviceUpdate, now: int)
    requires existing.assignedTo.Some?
    ensures Merge(existing, patch, now).assignedTo.Some?
  {
  }
}
