/** `StorageService`: creating and deleting storages, each optionally in a storage category. */
module StorageService {
  import opened Wrappers
  import opened Tables
  import CategoryRepository
  import opened LeafRepository
  import StorageRepository

  datatype CreateStorageStatus = Success | AlreadyExists | CategoryNotFound
  datatype DeleteStorageStatus = Success | NotEmpty | NotFound

  /**
   * `CreateStorageAsync`: `CategoryNotFound` for a category path with no row; `AlreadyExists`
   * when that name is taken in that category; both leave the storage table unchanged.
   * Otherwise exactly one storage with that name and category is added.
   */
  method CreateStorage(db: Catalogue, name: string, categoryPath: Option<string>)
    returns (status: CreateStorageStatus)
    requires db.Valid()
    modifies db
    ensures db.Valid()
    ensures db.categories == old(db.categories) && db.nextId == old(db.nextId)
    ensures status == CreateStorageStatus.CategoryNotFound <==>
              categoryPath.Some? && !old(CategoryRepository.CheckExists(db, categoryPath.value))
    ensures status == CreateStorageStatus.AlreadyExists <==>
              (categoryPath.None? || old(CategoryRepository.CheckExists(db, categoryPath.value)))
              && old(Get(db, name, categoryPath)).Some?
    ensures status == CreateStorageStatus.Success ==>
              db.leaves == old(db.leaves) + [LeafRow(name, CategoryRepository.IdOfPath(old(db.categories), categoryPath))]
              && Get(db, name, categoryPath) == Some(Leaf(name, categoryPath))
    ensures status != CreateStorageStatus.Success ==> db.leaves == old(db.leaves)
  {
    if categoryPath.Some? {
      if !CategoryRepository.CheckExists(db, categoryPath.value) {
        return CreateStorageStatus.CategoryNotFound;
      }
    }
    var isExists := Get(db, name, categoryPath) != None;
    if isExists {
      return CreateStorageStatus.AlreadyExists;
    }
    var ok := Add(db, Leaf(name, categoryPath));
    assert ok;
    return CreateStorageStatus.Success;
  }

  /**
   * `DeleteStorageAsync`: `NotFound` for a category path with no row or a name not in that
   * category, deleting nothing; otherwise `Success`, with every storage of that name removed.
   * `NotEmpty` never comes back.
   */
  method DeleteStorage(db: Catalogue, name: string, categoryPath: Option<string>)
    returns (status: DeleteStorageStatus)
    requires db.Valid()
    modifies db
    ensures db.Valid()
    ensures db.categories == old(db.categories) && db.nextId == old(db.nextId)
    ensures status != DeleteStorageStatus.NotEmpty
    ensures status == DeleteStorageStatus.NotFound <==>
              (categoryPath.Some? && !old(CategoryRepository.CheckExists(db, categoryPath.value)))
              || old(Get(db, name, categoryPath)).None?
    ensures status == DeleteStorageStatus.Success ==>
              db.leaves == WithoutName(old(db.leaves), name)
              && StorageRepository.GetByPath(db, name).None?
    ensures status == DeleteStorageStatus.NotFound ==> db.leaves == old(db.leaves)
  {
    if categoryPath.Some? {
      if !CategoryRepository.CheckExists(db, categoryPath.value) {
        return DeleteStorageStatus.NotFound;
      }
    }
    var storage := Get(db, name, categoryPath);
    if storage == None {
      return DeleteStorageStatus.NotFound;
    }
    var deleted := StorageRepository.Delete(db, storage.value);
    return DeleteStorageStatus.Success;
  }
}
