/**
 * Client walks through the repositories, showing what the contracts above
 * let a caller conclude: the create, update and delete round trips that the
 * project's API checks perform, an update of an unknown device, the listing
 * order, and the caching of the selected repository.
 */
module Scenarios {
  import opened Wrappers
  import opened Devices
  import opened MemoryRepository
  import opened Factory

  /** A created device reads back with the submitted name and assignee and equal timestamps. */
  method CreateThenGet(input: DeviceCreate, id: string, now: int) returns (created: Device, fetched: Option<Device>)
    ensures fetched == Some(created)
    ensures created.id == id && created.name == input.name && created.assignedTo == input.assignedTo
    ensures created.createdAt == created.updatedAt == now
  {
    var repo := new InMemoryDeviceRepository();
    created := repo.CreateDevice(input, id, now);
    fetched := repo.GetDevice(id);
  }

  /** An update that supplies both fields is what a later read returns; creation instant and identifier stay. */
  method UpdateThenGet(id: string, created: int, updated: int, newName: string, owner: string)
    returns (fetched: Option<Device>)
    ensures fetched == Some(Device(id, newName, Some(owner), created, updated))
  {
    var repo := new InMemoryDeviceRepository();
    var _ := repo.CreateDevice(DeviceCreate("Update Test", None), id, created);
    var _ := repo.UpdateDevice(id, DeviceUpdate(Some(newName), Some(owner)), updated);
    fetched := repo.GetDevice(id);
  }

  /** An update of an unknown identifier reports absence and does not create the device. */
  method UpdateUnknown(id: string, patch: DeviceUpdate, now: int) returns (updated: Option<Device>, fetched: Option<Device>)
    ensures updated == None && fetched == None
  {
    var repo := new InMemoryDeviceRepository();
    updated := repo.UpdateDevice(id, patch, now);
    fetched := repo.GetDevice(id);
  }

  /** Deleting removes the device; deleting it again reports that nothing was removed. */
  method DeleteTwice(input: DeviceCreate, id: string, now: int) returns (first: bool, fetched: Option<Device>, second: bool)
    ensures first && fetched == None && !second
  {
    var repo := new InMemoryDeviceRepository();
    var _ := repo.CreateDevice(input, id, now);
    first := repo.DeleteDevice(id);
    fetched := repo.GetDevice(id);
    second := repo.DeleteDevice(id);
  }

  /** Of two devices created one after the other, a one-element page shows the later one. */
  method NewestListedFirst(a: DeviceCreate, idA: string, t1: int, b: DeviceCreate, idB: string, t2: int)
    returns (page: seq<Device>)
    requires idA != idB && t1 < t2
    ensures page == [NewDevice(idB, b, t2)]
  {
    var repo := new InMemoryDeviceRepository();
    var _ := repo.CreateDevice(a, idA, t1);
    var _ := repo.CreateDevice(b, idB, t2);
    page := repo.ListDevices(0, 1);
  }

  /** Once a repository is cached, a changed setting, even an invalid one, does not replace it. */
  method CachedRepositoryWins(later: Option<string>) returns (first: Result<Repository, ConfigError>, second: Result<Repository, ConfigError>)
    ensures first.Success? && first.value.InMemory?
    ensures second == first
  {
    var factory := new RepositoryFactory();
    StorageModeExample();
    first := factory.GetRepository(Some("  MEMORY "));
    second := factory.GetRepository(later);
  }

  /** An invalid setting fails without caching, so a corrected setting later succeeds. */
  method FailureIsNotCached() returns (first: Result<Repository, ConfigError>, second: Result<Repository, ConfigError>)
    ensures first == Failure(UnsupportedStorageMode("sql"))
    ensures second.Success? && second.value == CosmosStore
  {
    var factory := new RepositoryFactory();
    SqlMode();
    first := factory.GetRepository(Some("SQL"));
    assert SelectKind("sql").Failure?;
    second := factory.GetRepository(None);
    assert SelectKind("cosmos") == Success(Cosmos);
  }

  lemma SqlMode()
    ensures StorageMode(Some("SQL")) == "sql"
  {
    StripFixed("SQL");
    assert Lower("SQL") == "sql";
  }
}
