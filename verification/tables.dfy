/**
 * The relational tables behind the repositories, as an in-memory model. Each hierarchy
 * (item types, storages) has a category table `(Id, Path, ParentId?)` and a leaf table
 * `(Name, CategoryId?)`. The unique indexes and the restrict-on-delete foreign keys of the
 * schema become the invariant `Catalogue.Valid`.
 */
module Tables {
  import opened Wrappers
  import opened Seqs

  /** A row of `ItemTypeCategories` or `StorageCategories`. */
  datatype CategoryRow = CategoryRow(id: nat, path: string, parentId: Option<nat>)

  /** A row of `ItemTypes` or `Storages`; its surrogate key plays no part in any query. */
  datatype LeafRow = LeafRow(name: string, categoryId: Option<nat>)

  /** `FirstOrDefault(c => c.Path == path)`: the first row with that path. */
  function FindByPath(rows: seq<CategoryRow>, path: string): (r: Option<CategoryRow>)
    ensures r.Some? ==> r.value in rows && r.value.path == path
    ensures r.None? <==> forall row :: row in rows ==> row.path != path
  {
    if rows == [] then None
    else if rows[0].path == path then Some(rows[0])
    else FindByPath(rows[1..], path)
  }

  /** The row a `ParentId` or `CategoryId` refers to (EF's navigation property). */
  function FindById(rows: seq<CategoryRow>, id: nat): (r: Option<CategoryRow>)
    ensures r.Some? ==> r.value in rows && r.value.id == id
    ensures r.None? <==> forall row :: row in rows ==> row.id != id
  {
    if rows == [] then None
    else if rows[0].id == id then Some(rows[0])
    else FindById(rows[1..], id)
  }

  /** The unique index on `Path`. */
  ghost predicate UniquePaths(rows: seq<CategoryRow>)
  {
    forall i, j :: 0 <= i < |rows| && 0 <= j < |rows| && rows[i].path == rows[j].path ==> rows[i] == rows[j]
  }

  /** The primary key `Id`. */
  ghost predicate UniqueIds(rows: seq<CategoryRow>)
  {
    forall i, j :: 0 <= i < |rows| && 0 <= j < |rows| && rows[i].id == rows[j].id ==> rows[i] == rows[j]
  }

  /**
   * Ids are handed out in increasing order and a parent must exist when its child is inserted,
   * so every `ParentId` names an older row.
   */
  ghost predicate ParentsBefore(rows: seq<CategoryRow>)
  {
    forall r :: r in rows && r.parentId.Some? ==> r.parentId.value < r.id
  }

  /** The foreign key `ParentId`: every parent reference names an existing row. */
  ghost predicate ParentsExist(rows: seq<CategoryRow>)
  {
    forall r :: r in rows && r.parentId.Some? ==> FindById(rows, r.parentId.value).Some?
  }

  ghost predicate CategoriesValid(rows: seq<CategoryRow>, nextId: nat)
  {
    && NoDup(rows)
    && UniquePaths(rows)
    && UniqueIds(rows)
    && ParentsBefore(rows)
    && ParentsExist(rows)
    && (forall r :: r in rows ==> r.id < nextId)
  }

  /**
   * The leaf table: the foreign key `CategoryId`, and the two filtered unique indexes
   * (`Name` among uncategorised rows, `(Name, CategoryId)` among categorised ones),
   * which together say that no `(Name, CategoryId)` pair occurs twice.
   */
  ghost predicate LeavesValid(leaves: seq<LeafRow>, rows: seq<CategoryRow>)
  {
    && NoDup(leaves)
    && forall l :: l in leaves && l.categoryId.Some? ==> FindById(rows, l.categoryId.value).Some?
  }

  /** Under the primary key, looking a row up by its own id finds that row. */
  lemma FindByIdOfRow(rows: seq<CategoryRow>, row: CategoryRow)
    requires UniqueIds(rows) && row in rows
    ensures FindById(rows, row.id) == Some(row)
  {
  }

  /** Under the unique path index, looking a row up by its own path finds that row. */
  lemma FindByPathOfRow(rows: seq<CategoryRow>, row: CategoryRow)
    requires UniquePaths(rows) && row in rows
    ensures FindByPath(rows, row.path) == Some(row)
  {
  }

  /**
   * The category and leaf tables of one hierarchy, as the database holds them (the
   * `ItemTypeCategories`/`ItemTypes` pair, or the `StorageCategories`/`Storages` pair).
   * `nextId` is the autoincrement counter of the category table.
   */
  class Catalogue {
    var categories: seq<CategoryRow>
    var leaves: seq<LeafRow>
    var nextId: nat

    ghost predicate Valid()
      reads this
    {
      CategoriesValid(categories, nextId) && LeavesValid(leaves, categories)
    }

    /** A freshly migrated, empty database; SQLite's autoincrement starts at 1. */
    constructor ()
      ensures Valid()
      ensures categories == [] && leaves == [] && nextId == 1
    {
      categories, leaves, nextId := [], [], 1;
    }
  }
}
