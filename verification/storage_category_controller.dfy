/**
 * `StorageCategoryController`: the create and delete actions turn the service's status into an
 * action result. Its tree action copies a tree exactly as `CategoryTree.CopyTree` does.
 */
module StorageCategoryController {
  import opened Wrappers
  import opened Tables
  import opened Category
  import CategoryRepository
  import StorageCategoryRepository
  import LeafRepository
  import opened ActionResults
  import opened StorageCategoryService

  /** The `status switch` of `Post`: 200 for `Success`, 409 for `AlreadyExists`, 404 for `ParentNotFound`. */
  function PostResult(status: CreateStorageCategoryStatus): (r: ActionResult<CreateStorageCategoryStatus>)
    ensures r.body == status
    ensures r.StatusCode() == 200 <==> status == CreateStorageCategoryStatus.Success
    ensures r.StatusCode() == 409 <==> status == CreateStorageCategoryStatus.AlreadyExists
    ensures r.StatusCode() == 404 <==> status == CreateStorageCategoryStatus.ParentNotFound
  {
    match status
    case Success => ActionResult.Ok(status)
    case AlreadyExists => ActionResult.Conflict(status)
    case ParentNotFound => ActionResult.NotFound(status)
  }

  /** The `status switch` of `Delete`: 200 for `Success`, 409 for `NotEmpty`, 404 for `NotFound`. */
  function DeleteResult(status: DeleteStorageCategoryStatus): (r: ActionResult<DeleteStorageCategoryStatus>)
    ensures r.body == status
    ensures r.StatusCode() == 200 <==> status == DeleteStorageCategoryStatus.Success
    ensures r.StatusCode() == 409 <==> status == DeleteStorageCategoryStatus.NotEmpty
    ensures r.StatusCode() == 404 <==> status == DeleteStorageCategoryStatus.NotFound
  {
    match status
    case Success => ActionResult.Ok(status)
    case NotEmpty => ActionResult.Conflict(status)
    case NotFound => ActionResult.NotFound(status)
  }

  /**
   * `POST api/storage-categories`: 404 exactly when the parent is missing, 409 exactly when
   * the new path is taken, and 200 exactly when the category row was added.
   */
  method Post(db: Catalogue, name: string, parentPath: Option<string>)
    returns (r: ActionResult<CreateStorageCategoryStatus>)
    requires db.Valid()
    modifies db
    ensures db.Valid()
    ensures r.StatusCode() == 404 <==> parentPath.Some? && !old(CategoryRepository.CheckExists(db, parentPath.value))
    ensures r.StatusCode() == 409 <==>
              (parentPath.None? || old(CategoryRepository.CheckExists(db, parentPath.value)))
              && old(CategoryRepository.CheckExists(db, NewCategoryPath(name, parentPath)))
    ensures r.StatusCode() == 200 ==>
              db.categories == old(db.categories)
                + [CategoryRow(old(db.nextId), NewCategoryPath(name, parentPath),
                               CategoryRepository.IdOfPath(old(db.categories), parentPath))]
    ensures r.StatusCode() != 200 ==> db.categories == old(db.categories)
  {
    var status := CreateStorageCategory(db, name, parentPath);
    r := PostResult(status);
  }

  /**
   * `DELETE api/storage-categories`, over the service with its existence check: 404 exactly when
   * the path is missing, 409 exactly when it still has children or storages, and 200 when its
   * row was removed.
   */
  method Delete(db: Catalogue, path: string) returns (r: ActionResult<DeleteStorageCategoryStatus>)
    requires db.Valid()
    modifies db
    ensures db.Valid()
    ensures r.StatusCode() == 404 <==> !old(CategoryRepository.CheckExists(db, path))
    ensures r.StatusCode() == 409 <==>
              old(CategoryRepository.CheckExists(db, path))
              && (old(StorageCategoryRepository.GetAllByParent(db, path, false)) != []
                  || old(LeafRepository.GetAllByCategory(db, Some(path))) != [])
    ensures r.StatusCode() == 200 ==>
              db.categories == CategoryRepository.WithoutPath(old(db.categories), path)
              && !CategoryRepository.CheckExists(db, path)
    ensures r.StatusCode() != 200 ==> db.categories == old(db.categories)
  {
    var status := DeleteStorageCategoryChecked(db, path);
    r := DeleteResult(status);
  }
}
