/** `ItemTypeService`: creating and deleting item types, each optionally in a category. */
module ItemTypeService {
  import opened Wrappers
  import opened Tables
  import CategoryRepository
  import opened LeafRepository

  datatype CreateItemTypeStatus = Success | AlreadyExists | CategoryNotFound
  datatype DeleteItemTypeStatus = Success | NotFound

  /**
   * `CreateItemTypeAsync`: `CategoryNotFound` for a category path with no row (never asked
   * without a path); `AlreadyExists` when that name is taken in that category; both add
   * nothing. Otherwise exactly one row is added, which `GetAsync` then finds.
   */
  method CreateItemType(db: Catalogue, name: string, categoryPath: Option<string>)
    returns (status: CreateItemTypeStatus)
    requires db.Valid()
    modifies db
    ensures db.Valid()
    ensures db.categories == old(db.categories) && db.nextId == old(db.nextId)
    ensures status == CreateItemTypeStatus.CategoryNotFound <==>
              categoryPath.Some? && !old(CategoryRepository.CheckExists(db, categoryPath.value))
    ensures status == CreateItemTypeStatus.AlreadyExists <==>
              (categoryPath.None? || old(CategoryRepository.CheckExists(db, categoryPath.value)))
              && old(Get(db, name, categoryPath)).Some?
    ensures status == CreateItemTypeStatus.Success ==>
              db.leaves == old(db.leaves) + [LeafRow(name, CategoryRepository.IdOfPath(old(db.categories), categoryPath))]
              && Get(db, name, categoryPath) == Some(Leaf(name, categoryPath))
    ensures status != CreateItemTypeStatus.Success ==> db.leaves == old(db.leaves)
  {
    if categoryPath.Some? {
      if !CategoryRepository.CheckExists(db, categoryPath.value) {
        return CreateItemTypeStatus.CategoryNotFound;
      }
    }
    var isExists := Get(db, name, categoryPath) != None;
    if isExists {
      return CreateItemTypeStatus.AlreadyExists;
    }
    var ok := Add(db, Leaf(name, categoryPath));
    assert ok;
    return CreateItemTypeStatus.Success;
  }

  /**
   * `DeleteItemTypeAsync`: `NotFound` for a category path with no row or for a name not in
   * that category, deleting nothing; otherwise `Success`, and the name is gone from every
   * category, since the repository deletes by name alone.
   */
  method DeleteItemType(db: Catalogue, name: string, categoryPath: Option<string>)
    returns (status: DeleteItemTypeStatus)
    requires db.Valid()
    modifies db
    ensures db.Valid()
    ensures db.categories == old(db.categories) && db.nextId == old(db.nextId)
    ensures status == DeleteItemTypeStatus.NotFound <==>
              (categoryPath.Some? && !old(CategoryRepository.CheckExists(db, categoryPath.value)))
              || old(Get(db, name, categoryPath)).None?
    ensures status == DeleteItemTypeStatus.Success ==>
              db.leaves == WithoutName(old(db.leaves), name)
              && forall c :: Get(db, name, c).None?
    ensures status == DeleteItemTypeStatus.NotFound ==> db.leaves == old(db.leaves)
  {
    if categoryPath.Some? {
      if !CategoryRepository.CheckExists(db, categoryPath.value) {
        return DeleteItemTypeStatus.NotFound;
      }
    }
    var itemType := Get(db, name, categoryPath);
    if itemType == None {
      return DeleteItemTypeStatus.NotFound;
    }
    DeleteByName(db, itemType.value);
    return DeleteItemTypeStatus.Success;
  }
}
