/**
 * What `EfStorageCategoryRepository` does differently from the item-type repository, and the
 * `ICategoryRepository.TryAddAsync` that `StorageCategoryService` calls.
 */
module StorageCategoryRepository {
  import opened Wrappers
  import opened Tables
  import CategoryRepository

  /**
   * `GetAllByParentAsync(parent, recursive)` with a parent that may not be null: an unknown
   * parent yields nothing; otherwise the walk below the parent's row.
   */
  function GetAllByParent(db: Catalogue, parent: string, recursive: bool): (r: seq<string>)
    reads db
    requires db.Valid()
    ensures !CategoryRepository.CheckExists(db, parent) ==> r == []
    ensures r == CategoryRepository.GetAllByParent(db, Some(parent), recursive)
  {
    match FindByPath(db.categories, parent)
    case None => []
    case Some(parentRow) => CategoryRepository.Enumerate(db.categories, Some(parentRow.id), recursive)
  }

  /**
   * `TryAddAsync(category, parent)`, which the interface declares and no class implements here:
   * it inserts like `AddAsync` and answers whether a row was inserted, instead of throwing.
   */
  method TryAdd(db: Catalogue, path: string, parent: Option<string>) returns (added: bool)
    requires db.Valid()
    modifies db
    ensures db.Valid()
    ensures db.leaves == old(db.leaves)
    ensures added <==> (parent.None? || old(CategoryRepository.CheckExists(db, parent.value)))
                       && !old(CategoryRepository.CheckExists(db, path))
    ensures added ==> db.categories == old(db.categories) + [CategoryRow(old(db.nextId), path, CategoryRepository.IdOfPath(old(db.categories), parent))]
    ensures !added ==> db.categories == old(db.categories)
  {
    added := CategoryRepository.Add(db, path, parent);
  }
}
