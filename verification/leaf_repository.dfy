/**
 * `EfItemTypeRepository`: queries and updates of a leaf table (item types) joined to its
 * category table. `IStorageRepository` declares the same `GetAsync`, `GetAllByCategoryAsync`
 * and `AddAsync` for storages without an implementation; the services use these for both.
 */
module LeafRepository {
  import opened Wrappers
  import opened Seqs
  import opened Tables
  import CategoryRepository

  /** A domain `ItemType` or `Storage` as the repository hands it out: its name and the category asked for. */
  datatype Leaf = Leaf(name: string, category: Option<string>)

  /**
   * The filter of `GetAsync` and `GetAllByCategoryAsync`: a null category matches only
   * uncategorised rows; a category matches only rows whose category row has that path.
   */
  predicate InCategory(rows: seq<CategoryRow>, leaf: LeafRow, category: Option<string>)
  {
    || (leaf.categoryId.None? && category.None?)
    || (leaf.categoryId.Some? && category.Some? &&
        match FindById(rows, leaf.categoryId.value)
        case Some(c) => c.path == category.value
        case None => false)
  }

  /** With the keys and foreign keys in place, matching a category path is matching that row's id. */
  lemma InCategoryById(db: Catalogue, leaf: LeafRow, category: Option<string>)
    requires db.Valid()
    ensures category.Some? && !CategoryRepository.CheckExists(db, category.value) ==> !InCategory(db.categories, leaf, category)
    ensures category.None? || CategoryRepository.CheckExists(db, category.value) ==>
              (InCategory(db.categories, leaf, category) <==> leaf.categoryId == CategoryRepository.IdOfPath(db.categories, category))
  {
    if category.Some? && CategoryRepository.CheckExists(db, category.value) {
      var up := FindByPath(db.categories, category.value).value;
      if leaf.categoryId == Some(up.id) {
        FindByIdOfRow(db.categories, up);
      }
    }
  }

  /** The domain objects the `Select` builds: each row's name, with the category that was asked for. */
  function ToDomain(leaves: seq<LeafRow>, category: Option<string>): (r: seq<Leaf>)
    ensures |r| == |leaves|
    ensures forall i :: 0 <= i < |leaves| ==> r[i] == Leaf(leaves[i].name, category)
  {
    if leaves == [] then [] else [Leaf(leaves[0].name, category)] + ToDomain(leaves[1..], category)
  }

  /** The rows of `category`, in table order. */
  function RowsIn(db: Catalogue, category: Option<string>): (r: seq<LeafRow>)
    reads db
    ensures forall l :: l in r <==> l in db.leaves && InCategory(db.categories, l, category)
  {
    var rows := db.categories;
    Filter(db.leaves, (l: LeafRow) => InCategory(rows, l, category))
  }

  /** `GetAllByCategoryAsync(category)`: exactly the leaves of that category, none from another. */
  function GetAllByCategory(db: Catalogue, category: Option<string>): (r: seq<Leaf>)
    reads db
    ensures forall x :: x in r ==> x.category == category
    ensures forall n :: Leaf(n, category) in r <==>
              exists l :: l in db.leaves && l.name == n && InCategory(db.categories, l, category)
  {
    var r := ToDomain(RowsIn(db, category), category);
    assert forall n :: Leaf(n, category) in r <==> exists i :: 0 <= i < |r| && r[i] == Leaf(n, category);
    r
  }

  /** A category with no child category and no leaf is referenced by nothing, so it can be deleted. */
  lemma EmptyCategoryIsUnreferenced(db: Catalogue, path: string)
    requires db.Valid()
    requires CategoryRepository.GetAllByParent(db, Some(path), false) == []
    requires GetAllByCategory(db, Some(path)) == []
    ensures !CategoryRepository.IsReferenced(db, path)
  {
    CategoryRepository.GetAllByParentDirect(db, Some(path));
    if CategoryRepository.CheckExists(db, path) {
      var row := FindByPath(db.categories, path).value;
      forall l | l in db.leaves
        ensures l.categoryId != Some(row.id)
      {
        InCategoryById(db, l, Some(path));
        assert Leaf(l.name, Some(path)) !in GetAllByCategory(db, Some(path));
      }
    }
  }

  /** The names of a list of leaves (`Select(x => x.Name)`). */
  function NamesOf(leaves: seq<Leaf>): (names: seq<string>)
    ensures |names| == |leaves|
    ensures forall i :: 0 <= i < |leaves| ==> names[i] == leaves[i].name
  {
    if leaves == [] then [] else [leaves[0].name] + NamesOf(leaves[1..])
  }

  /** `GetAsync(name, category)`: the first row with that name in that category, if any. */
  function Get(db: Catalogue, name: string, category: Option<string>): (r: Option<Leaf>)
    reads db
    ensures r.Some? <==> exists l :: l in db.leaves && l.name == name && InCategory(db.categories, l, category)
    ensures r.Some? ==> r.value == Leaf(name, category)
  {
    var rows := db.categories;
    var hits := Filter(db.leaves, (l: LeafRow) => l.name == name && InCategory(rows, l, category));
    if hits == [] then None
    else
      assert hits[0] in hits;
      Some(Leaf(hits[0].name, category))
  }

  /** `Where(i => i.Name != name)`: the table after an `ExecuteDelete` by name. */
  function WithoutName(leaves: seq<LeafRow>, name: string): (rest: seq<LeafRow>)
    ensures forall l :: l in rest <==> l in leaves && l.name != name
    ensures NoDup(leaves) ==> NoDup(rest)
  {
    Filter(leaves, (l: LeafRow) => l.name != name)
  }

  /**
   * `AddAsync(leaf)`. `FirstAsync` throws when the category path has no row, and `SaveChanges`
   * throws on the unique indexes when the `(Name, CategoryId)` pair is taken; `ok` is false
   * exactly then and nothing changes. Otherwise one row is appended, and `GetAsync` finds it.
   */
  method Add(db: Catalogue, leaf: Leaf) returns (ok: bool)
    requires db.Valid()
    modifies db
    ensures db.Valid()
    ensures db.categories == old(db.categories) && db.nextId == old(db.nextId)
    ensures ok <==> (leaf.category.None? || old(CategoryRepository.CheckExists(db, leaf.category.value)))
                    && old(Get(db, leaf.name, leaf.category)).None?
    ensures ok ==> db.leaves == old(db.leaves) + [LeafRow(leaf.name, CategoryRepository.IdOfPath(old(db.categories), leaf.category))]
    ensures ok ==> Get(db, leaf.name, leaf.category) == Some(leaf)
    ensures !ok ==> db.leaves == old(db.leaves)
  {
    var categoryId: Option<nat> := None;
    if leaf.category.Some? {
      var categoryRow := FindByPath(db.categories, leaf.category.value);
      if categoryRow.None? {
        return false;
      }
      categoryId := Some(categoryRow.value.id);
    }
    var row := LeafRow(leaf.name, categoryId);
    InCategoryById(db, row, leaf.category);
    forall l | l in db.leaves && l.name == leaf.name
      ensures InCategory(db.categories, l, leaf.category) <==> l == row
    {
      InCategoryById(db, l, leaf.category);
    }
    if row in db.leaves {
      return false;
    }
    NoDupAppend(db.leaves, row);
    db.leaves := db.leaves + [row];
    assert row in db.leaves;
    ok := true;
  }

  /** `DeleteAsync(leaf)`: removes every row with that name, whatever its category. */
  method DeleteByName(db: Catalogue, leaf: Leaf)
    requires db.Valid()
    modifies db
    ensures db.Valid()
    ensures db.categories == old(db.categories) && db.nextId == old(db.nextId)
    ensures db.leaves == WithoutName(old(db.leaves), leaf.name)
  {
    db.leaves := WithoutName(db.leaves, leaf.name);
  }
}
