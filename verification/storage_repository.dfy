/** `EfStorageRepository`: the storage table looked up by name alone. */
module StorageRepository {
  import opened Wrappers
  import opened Seqs
  import opened Tables
  import opened LeafRepository

  /** `GetByPathAsync(path)`: a storage named `path`, found in any category, returned without its category. */
  function GetByPath(db: Catalogue, path: string): (r: Option<Leaf>)
    reads db
    ensures r.Some? <==> exists l :: l in db.leaves && l.name == path
    ensures r.Some? ==> r.value == Leaf(path, None)
  {
    var hits := Filter(db.leaves, (l: LeafRow) => l.name == path);
    if hits == [] then None
    else
      assert hits[0] in hits;
      Some(Leaf(hits[0].name, None))
  }

  /** `GetAllAsync()`: one storage per row, in table order, carrying the row's name. */
  function GetAll(db: Catalogue): (r: seq<Leaf>)
    reads db
    ensures |r| == |db.leaves|
    ensures forall i :: 0 <= i < |r| ==> r[i].name == db.leaves[i].name && r[i].category == None
  {
    ToDomain(db.leaves, None)
  }

  /**
   * `TryAddAsync(storage)`: refuses a name already used in any category; otherwise appends an
   * uncategorised row, after which `GetByPath` finds it.
   */
  method TryAdd(db: Catalogue, storage: Leaf) returns (added: bool)
    requires db.Valid()
    modifies db
    ensures db.Valid()
    ensures db.categories == old(db.categories) && db.nextId == old(db.nextId)
    ensures added <==> old(GetByPath(db, storage.name)).None?
    ensures added ==> db.leaves == old(db.leaves) + [LeafRow(storage.name, None)]
    ensures added ==> GetByPath(db, storage.name) == Some(Leaf(storage.name, None))
    ensures !added ==> db.leaves == old(db.leaves)
  {
    var isExist := exists l :: l in db.leaves && l.name == storage.name;
    if isExist {
      return false;
    }
    var row := LeafRow(storage.name, None);
    NoDupAppend(db.leaves, row);
    db.leaves := db.leaves + [row];
    assert row in db.leaves;
    added := true;
  }

  /** `DeleteAsync(storage)`: removes every row with that name; true exactly when one was removed. */
  method Delete(db: Catalogue, storage: Leaf) returns (deleted: bool)
    requires db.Valid()
    modifies db
    ensures db.Valid()
    ensures db.categories == old(db.categories) && db.nextId == old(db.nextId)
    ensures db.leaves == WithoutName(old(db.leaves), storage.name)
    ensures deleted <==> exists l :: l in old(db.leaves) && l.name == storage.name
  {
    var before := db.leaves;
    db.leaves := WithoutName(db.leaves, storage.name);
    deleted := |db.leaves| < |before|;
    FilterShrinks(before, (l: LeafRow) => l.name != storage.name);
  }
}
