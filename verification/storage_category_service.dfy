/**
 * `StorageCategoryService`: creating and deleting storage categories. Creation checks the
 * parent and leaves the path check to `TryAddAsync`; deletion checks for children and
 * storages but not for the category itself.
 */
module StorageCategoryService {
  import opened Wrappers
  import opened Seqs
  import opened Tables
  import opened Category
  import CategoryRepository
  import StorageCategoryRepository
  import LeafRepository

  datatype CreateStorageCategoryStatus = Success | AlreadyExists | ParentNotFound
  datatype DeleteStorageCategoryStatus = Success | NotEmpty | NotFound

  /**
   * `CreateStorageCategoryAsync`: a missing parent gives `ParentNotFound` before anything is
   * added; otherwise the outcome of `TryAddAsync` on `parent/name` (or `name` at the top
   * level) decides between `Success`, with exactly that row added under the parent's row, and
   * `AlreadyExists`, with the table unchanged.
   */
  method CreateStorageCategory(db: Catalogue, name: string, parentPath: Option<string>)
    returns (status: CreateStorageCategoryStatus)
    requires db.Valid()
    modifies db
    ensures db.Valid()
    ensures db.leaves == old(db.leaves)
    ensures status == CreateStorageCategoryStatus.ParentNotFound <==>
              parentPath.Some? && !old(CategoryRepository.CheckExists(db, parentPath.value))
    ensures status == CreateStorageCategoryStatus.AlreadyExists <==>
              (parentPath.None? || old(CategoryRepository.CheckExists(db, parentPath.value)))
              && old(CategoryRepository.CheckExists(db, NewCategoryPath(name, parentPath)))
    ensures status == CreateStorageCategoryStatus.Success ==>
              db.categories == old(db.categories)
                + [CategoryRow(old(db.nextId), NewCategoryPath(name, parentPath),
                               CategoryRepository.IdOfPath(old(db.categories), parentPath))]
    ensures status != CreateStorageCategoryStatus.Success ==> db.categories == old(db.categories)
  {
    var path: string;
    if parentPath.Some? {
      if !CategoryRepository.CheckExists(db, parentPath.value) {
        return CreateStorageCategoryStatus.ParentNotFound;
      }
      path := FromNameAndParent(name, parentPath.value);
    } else {
      path := name;
    }
    var isSuccess := StorageCategoryRepository.TryAdd(db, path, parentPath);
    status := if isSuccess then CreateStorageCategoryStatus.Success else CreateStorageCategoryStatus.AlreadyExists;
  }

  /**
   * `DeleteStorageCategoryAsync`: `NotEmpty` when the category has a child category or a
   * storage, deleting nothing; otherwise `Success` with every row at that path removed. There
   * is no existence check, so `NotFound` never comes back, and an absent path is a `Success`
   * that changes nothing.
   */
  method DeleteStorageCategory(db: Catalogue, path: string) returns (status: DeleteStorageCategoryStatus)
    requires db.Valid()
    modifies db
    ensures db.Valid()
    ensures db.leaves == old(db.leaves) && db.nextId == old(db.nextId)
    ensures status != DeleteStorageCategoryStatus.NotFound
    ensures status == DeleteStorageCategoryStatus.NotEmpty <==>
              old(StorageCategoryRepository.GetAllByParent(db, path, false)) != []
              || old(LeafRepository.GetAllByCategory(db, Some(path))) != []
    ensures status == DeleteStorageCategoryStatus.Success ==>
              db.categories == CategoryRepository.WithoutPath(old(db.categories), path)
              && !CategoryRepository.CheckExists(db, path)
    ensures !old(CategoryRepository.CheckExists(db, path)) ==>
              status == DeleteStorageCategoryStatus.Success && db.categories == old(db.categories)
    ensures status != DeleteStorageCategoryStatus.Success ==> db.categories == old(db.categories)
  {
    var childCategories := StorageCategoryRepository.GetAllByParent(db, path, false);
    if childCategories != [] {
      return DeleteStorageCategoryStatus.NotEmpty;
    }
    var storages := LeafRepository.GetAllByCategory(db, Some(path));
    if storages != [] {
      return DeleteStorageCategoryStatus.NotEmpty;
    }
    ghost var before, existed := db.categories, CategoryRepository.CheckExists(db, path);
    LeafRepository.EmptyCategoryIsUnreferenced(db, path);
    var ok := CategoryRepository.Delete(db, path);
    assert ok;
    if !existed {
      FilterKeepsAll(before, (row: CategoryRow) => row.path != path);
    }
    status := DeleteStorageCategoryStatus.Success;
  }

  /**
   * `DeleteStorageCategoryAsync` with the existence check its sibling
   * `DeleteItemTypeCategoryAsync` makes first: `NotFound` for a missing path, then the same
   * `NotEmpty` checks; each of the three outcomes happens exactly in its own case.
   */
  method DeleteStorageCategoryChecked(db: Catalogue, path: string) returns (status: DeleteStorageCategoryStatus)
    requires db.Valid()
    modifies db
    ensures db.Valid()
    ensures db.leaves == old(db.leaves) && db.nextId == old(db.nextId)
    ensures status == DeleteStorageCategoryStatus.NotFound <==> !old(CategoryRepository.CheckExists(db, path))
    ensures status == DeleteStorageCategoryStatus.NotEmpty <==>
              old(CategoryRepository.CheckExists(db, path))
              && (old(StorageCategoryRepository.GetAllByParent(db, path, false)) != []
                  || old(LeafRepository.GetAllByCategory(db, Some(path))) != [])
    ensures status == DeleteStorageCategoryStatus.Success ==>
              db.categories == CategoryRepository.WithoutPath(old(db.categories), path)
              && !CategoryRepository.CheckExists(db, path)
    ensures status != DeleteStorageCategoryStatus.Success ==> db.categories == old(db.categories)
  {
    if !CategoryRepository.CheckExists(db, path) {
      return DeleteStorageCategoryStatus.NotFound;
    }
    status := DeleteStorageCategory(db, path);
  }

  /** On a new database, deleting the path "test", which names no category, reports `Success`. */
  method DeleteAbsentIsSuccess() returns (status: DeleteStorageCategoryStatus)
    ensures status == DeleteStorageCategoryStatus.Success
  {
    var db := new Catalogue();
    status := DeleteStorageCategory(db, "test");
  }
}
