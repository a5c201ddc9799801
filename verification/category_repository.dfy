/**
 * `EfItemTypeCategoryRepository` and `EfStorageCategoryRepository`: the two classes have the
 * same bodies over their own table, so one module models both over a `Catalogue`.
 * `GetAllByParent` here is the item-type signature (nullable parent); the storage one is in
 * `StorageCategoryRepository`.
 */
module CategoryRepository {
  import opened Wrappers
  import opened Seqs
  import opened Tables

  /** `CheckExistsAsync`: some row has exactly this path. */
  function CheckExists(db: Catalogue, path: string): (found: bool)
    reads db
    ensures found <==> exists row :: row in db.categories && row.path == path
  {
    FindByPath(db.categories, path).Some?
  }

  /** `Where(c => c.ParentId == parentId)`: the rows directly under `parentId`, in table order. */
  function ChildrenOf(rows: seq<CategoryRow>, parentId: Option<nat>): (kids: seq<CategoryRow>)
    ensures forall row :: row in kids <==> row in rows && row.parentId == parentId
    ensures NoDup(rows) ==> NoDup(kids)
  {
    Filter(rows, (row: CategoryRow) => row.parentId == parentId)
  }

  /** The paths of `rows`, in order (the `Category<T> { Path = ... }` objects the query yields). */
  function PathsOf(rows: seq<CategoryRow>): (paths: seq<string>)
    ensures |paths| == |rows|
    ensures forall i :: 0 <= i < |rows| ==> paths[i] == rows[i].path
  {
    if rows == [] then [] else [rows[0].path] + PathsOf(rows[1..])
  }

  /** One more than the largest id in the table. */
  function Bound(rows: seq<CategoryRow>): (b: nat)
    ensures forall r :: r in rows ==> r.id < b
  {
    if rows == [] then 0
    else
      var rest := Bound(rows[1..]);
      if rows[0].id + 1 > rest then rows[0].id + 1 else rest
  }

  /** Termination measure of the walk: children have larger ids than their parent. */
  function Rank(rows: seq<CategoryRow>, parentId: Option<nat>): nat
  {
    match parentId
    case None => Bound(rows) + 1
    case Some(k) => if k < Bound(rows) then Bound(rows) - k else 0
  }

  /**
   * The body of `GetAllByParentAsync` once the parent's id is known: each child in table
   * order, and, when `recursive`, each child immediately followed by its own walk (pre-order).
   */
  function Enumerate(rows: seq<CategoryRow>, parentId: Option<nat>, recursive: bool): (paths: seq<string>)
    requires ParentsBefore(rows)
    ensures |paths| >= |ChildrenOf(rows, parentId)|
    ensures !recursive ==> |paths| == |ChildrenOf(rows, parentId)|
    decreases Rank(rows, parentId), 1, 0
  {
    EnumerateFrom(rows, ChildrenOf(rows, parentId), Rank(rows, parentId), recursive)
  }

  /** The `await foreach` over the children `kids`. */
  function EnumerateFrom(rows: seq<CategoryRow>, kids: seq<CategoryRow>, bound: nat, recursive: bool): (paths: seq<string>)
    requires ParentsBefore(rows)
    requires forall k :: k in kids ==> k in rows && Rank(rows, Some(k.id)) < bound
    ensures |paths| >= |kids|
    ensures !recursive ==> |paths| == |kids|
    decreases bound, 0, |kids|
  {
    if kids == [] then []
    else
      [kids[0].path]
      + (if recursive then Enumerate(rows, Some(kids[0].id), true) else [])
      + EnumerateFrom(rows, kids[1..], bound, recursive)
  }

  /**
   * `GetAllByParentAsync(parent, recursive)`: a null parent stands for the top level; a parent
   * path with no row yields nothing.
   */
  function GetAllByParent(db: Catalogue, parent: Option<string>, recursive: bool): (paths: seq<string>)
    reads db
    requires db.Valid()
    ensures parent.Some? && !CheckExists(db, parent.value) ==> paths == []
  {
    match parent
    case None => Enumerate(db.categories, None, recursive)
    case Some(p) =>
      match FindByPath(db.categories, p)
      case None => []
      case Some(parentRow) => Enumerate(db.categories, Some(parentRow.id), recursive)
  }

  /** `row` lies below `parentId`: following `ParentId` links from `row` reaches `parentId`. */
  ghost predicate DescendsFrom(rows: seq<CategoryRow>, row: CategoryRow, parentId: Option<nat>)
    requires ParentsBefore(rows) && row in rows
    decreases row.id
  {
    || row.parentId == parentId
    || (row.parentId.Some? &&
        match FindById(rows, row.parentId.value)
        case None => false
        case Some(up) => DescendsFrom(rows, up, parentId))
  }

  /** Without recursion the walk over `kids` is just their paths. */
  lemma {:induction false} EnumerateFromDirect(rows: seq<CategoryRow>, kids: seq<CategoryRow>, bound: nat)
    requires ParentsBefore(rows)
    requires forall k :: k in kids ==> k in rows && Rank(rows, Some(k.id)) < bound
    ensures EnumerateFrom(rows, kids, bound, false) == PathsOf(kids)
    decreases |kids|
  {
    if kids != [] {
      EnumerateFromDirect(rows, kids[1..], bound);
    }
  }

  /** Descending from a child `k` of `parentId` is descending from `parentId`. */
  lemma {:induction false} DescendsThrough(rows: seq<CategoryRow>, row: CategoryRow, k: CategoryRow, parentId: Option<nat>)
    requires ParentsBefore(rows) && UniqueIds(rows)
    requires row in rows && k in rows && k.parentId == parentId
    requires DescendsFrom(rows, row, Some(k.id))
    ensures DescendsFrom(rows, row, parentId)
    decreases row.id
  {
    if row.parentId == Some(k.id) {
      FindByIdOfRow(rows, k);
    } else {
      var up := FindById(rows, row.parentId.value).value;
      DescendsThrough(rows, up, k, parentId);
    }
  }

  /** Everything the recursive walk yields is the path of a row below `parentId`. */
  lemma {:induction false} EnumerateSound(rows: seq<CategoryRow>, parentId: Option<nat>)
    requires ParentsBefore(rows) && UniqueIds(rows)
    ensures forall x :: x in Enumerate(rows, parentId, true) ==>
              exists row :: row in rows && row.path == x && DescendsFrom(rows, row, parentId)
    decreases Rank(rows, parentId), 1, 0
  {
    EnumerateFromSound(rows, ChildrenOf(rows, parentId), Rank(rows, parentId), parentId);
  }

  lemma {:induction false} EnumerateFromSound(rows: seq<CategoryRow>, kids: seq<CategoryRow>, bound: nat, parentId: Option<nat>)
    requires ParentsBefore(rows) && UniqueIds(rows)
    requires forall k :: k in kids ==> k in rows && Rank(rows, Some(k.id)) < bound && k.parentId == parentId
    ensures forall x :: x in EnumerateFrom(rows, kids, bound, true) ==>
              exists row :: row in rows && row.path == x && DescendsFrom(rows, row, parentId)
    decreases bound, 0, |kids|
  {
    if kids != [] {
      var k := kids[0];
      EnumerateSound(rows, Some(k.id));
      EnumerateFromSound(rows, kids[1..], bound, parentId);
      forall x | x in Enumerate(rows, Some(k.id), true)
        ensures exists row :: row in rows && row.path == x && DescendsFrom(rows, row, parentId)
      {
        var row :| row in rows && row.path == x && DescendsFrom(rows, row, Some(k.id));
        DescendsThrough(rows, row, k, parentId);
      }
      assert DescendsFrom(rows, k, parentId);
    }
  }

  /** A child in `kids` is yielded, and so is everything of its own walk. */
  lemma {:induction false} EnumerateFromCovers(rows: seq<CategoryRow>, kids: seq<CategoryRow>, bound: nat, k: CategoryRow)
    requires ParentsBefore(rows)
    requires forall c :: c in kids ==> c in rows && Rank(rows, Some(c.id)) < bound
    requires k in kids
    ensures k.path in EnumerateFrom(rows, kids, bound, true)
    ensures forall x :: x in Enumerate(rows, Some(k.id), true) ==> x in EnumerateFrom(rows, kids, bound, true)
    decreases |kids|
  {
    if kids[0] != k {
      EnumerateFromCovers(rows, kids[1..], bound, k);
    }
  }

  /** The walk under a direct child `k` of `parentId` is part of the walk under `parentId`. */
  lemma ChildWalkIncluded(rows: seq<CategoryRow>, parentId: Option<nat>, k: CategoryRow)
    requires ParentsBefore(rows) && k in rows && k.parentId == parentId
    ensures k.path in Enumerate(rows, parentId, true)
    ensures forall x :: x in Enumerate(rows, Some(k.id), true) ==> x in Enumerate(rows, parentId, true)
  {
    EnumerateFromCovers(rows, ChildrenOf(rows, parentId), Rank(rows, parentId), k);
  }

  /** The walk under any row below `parentId` is part of the walk under `parentId`. */
  lemma {:induction false} EnumerateNested(rows: seq<CategoryRow>, row: CategoryRow, parentId: Option<nat>)
    requires ParentsBefore(rows) && UniqueIds(rows)
    requires row in rows && DescendsFrom(rows, row, parentId)
    ensures forall x :: x in Enumerate(rows, Some(row.id), true) ==> x in Enumerate(rows, parentId, true)
    decreases row.id
  {
    if row.parentId == parentId {
      ChildWalkIncluded(rows, parentId, row);
    } else {
      var up := FindById(rows, row.parentId.value).value;
      EnumerateNested(rows, up, parentId);
      ChildWalkIncluded(rows, Some(up.id), row);
    }
  }

  /** Every row below `parentId` is yielded by the recursive walk. */
  lemma EnumerateComplete(rows: seq<CategoryRow>, row: CategoryRow, parentId: Option<nat>)
    requires ParentsBefore(rows) && UniqueIds(rows)
    requires row in rows && DescendsFrom(rows, row, parentId)
    ensures row.path in Enumerate(rows, parentId, true)
  {
    if row.parentId == parentId {
      ChildWalkIncluded(rows, parentId, row);
    } else {
      var up := FindById(rows, row.parentId.value).value;
      ChildWalkIncluded(rows, Some(up.id), row);
      EnumerateNested(rows, up, parentId);
    }
  }

  /** `row` is `k` itself or lies below it: the part of the walk that `k` contributes. */
  ghost predicate Under(rows: seq<CategoryRow>, row: CategoryRow, k: CategoryRow)
    requires ParentsBefore(rows) && row in rows
  {
    row == k || DescendsFrom(rows, row, Some(k.id))
  }

  /** Under the unique path index, two rows with the same path are the same row. */
  lemma SamePathSameRow(rows: seq<CategoryRow>, a: CategoryRow, b: CategoryRow)
    requires UniquePaths(rows) && a in rows && b in rows
    ensures a.path == b.path ==> a == b
  {
    var i :| 0 <= i < |rows| && rows[i] == a;
    var j :| 0 <= j < |rows| && rows[j] == b;
  }

  /** A row below the category with id `p` has a larger id, since every parent is older. */
  lemma {:induction false} DescendsIdGreater(rows: seq<CategoryRow>, row: CategoryRow, p: nat)
    requires ParentsBefore(rows) && row in rows
    ensures DescendsFrom(rows, row, Some(p)) ==> p < row.id
    decreases row.id
  {
    if row.parentId.Some? && row.parentId != Some(p) {
      match FindById(rows, row.parentId.value)
      case None =>
      case Some(up) => DescendsIdGreater(rows, up, p);
    }
  }

  /** No row lies below one of its siblings. */
  lemma NotBelowSibling(rows: seq<CategoryRow>, k: CategoryRow, sibling: CategoryRow)
    requires ParentsBefore(rows) && k in rows && sibling in rows && k.parentId == sibling.parentId
    ensures !DescendsFrom(rows, k, Some(sibling.id))
  {
    if k.parentId.Some? && k.parentId != Some(sibling.id) {
      match FindById(rows, k.parentId.value)
      case None =>
      case Some(up) => DescendsIdGreater(rows, up, sibling.id);
    }
  }

  /** The subtrees of two different siblings share no row. */
  lemma {:induction false} SiblingSubtreesDisjoint(rows: seq<CategoryRow>, row: CategoryRow, k: CategoryRow, sibling: CategoryRow)
    requires ParentsBefore(rows) && UniqueIds(rows)
    requires row in rows && k in rows && sibling in rows && k != sibling && k.parentId == sibling.parentId
    ensures !(Under(rows, row, k) && Under(rows, row, sibling))
    decreases row.id
  {
    NotBelowSibling(rows, k, sibling);
    NotBelowSibling(rows, sibling, k);
    FindByIdOfRow(rows, k);
    FindByIdOfRow(rows, sibling);
    if row != k && row != sibling && row.parentId.Some? {
      match FindById(rows, row.parentId.value)
      case None =>
      case Some(up) => SiblingSubtreesDisjoint(rows, up, k, sibling);
    }
  }

  /** Everything the walk over `kids` yields is the path of a row under one of `kids`. */
  lemma {:induction false} EnumerateFromUnder(rows: seq<CategoryRow>, kids: seq<CategoryRow>, bound: nat)
    requires ParentsBefore(rows) && UniqueIds(rows)
    requires forall k :: k in kids ==> k in rows && Rank(rows, Some(k.id)) < bound
    ensures forall x :: x in EnumerateFrom(rows, kids, bound, true) ==>
              exists row, k :: row in rows && k in kids && row.path == x && Under(rows, row, k)
    decreases |kids|
  {
    if kids != [] {
      var k := kids[0];
      EnumerateSound(rows, Some(k.id));
      EnumerateFromUnder(rows, kids[1..], bound);
      forall x | x in EnumerateFrom(rows, kids, bound, true)
        ensures exists row, c :: row in rows && c in kids && row.path == x && Under(rows, row, c)
      {
        if x == k.path {
          assert Under(rows, k, k);
        } else if x in Enumerate(rows, Some(k.id), true) {
          var row :| row in rows && row.path == x && DescendsFrom(rows, row, Some(k.id));
          assert Under(rows, row, k);
        } else {
          assert x in EnumerateFrom(rows, kids[1..], bound, true);
          var row, c :| row in rows && c in kids[1..] && row.path == x && Under(rows, row, c);
          assert c in kids;
        }
      }
    }
  }

  /** The recursive walk yields no path twice. */
  lemma {:induction false} EnumerateNoDup(rows: seq<CategoryRow>, parentId: Option<nat>)
    requires ParentsBefore(rows) && UniqueIds(rows) && UniquePaths(rows) && NoDup(rows)
    ensures NoDup(Enumerate(rows, parentId, true))
    decreases Rank(rows, parentId), 1, 0
  {
    EnumerateFromNoDup(rows, ChildrenOf(rows, parentId), Rank(rows, parentId), parentId);
  }

  /**
   * The walk over distinct siblings yields no path twice: each sibling's path is not in its
   * own subtree, and the subtrees of different siblings are disjoint.
   */
  lemma {:induction false} EnumerateFromNoDup(rows: seq<CategoryRow>, kids: seq<CategoryRow>, bound: nat, parentId: Option<nat>)
    requires ParentsBefore(rows) && UniqueIds(rows) && UniquePaths(rows) && NoDup(rows)
    requires forall k :: k in kids ==> k in rows && Rank(rows, Some(k.id)) < bound && k.parentId == parentId
    requires NoDup(kids)
    ensures NoDup(EnumerateFrom(rows, kids, bound, true))
    decreases bound, 0, |kids|
  {
    if kids != [] {
      var k := kids[0];
      var below := Enumerate(rows, Some(k.id), true);
      var rest := EnumerateFrom(rows, kids[1..], bound, true);
      EnumerateNoDup(rows, Some(k.id));
      EnumerateFromNoDup(rows, kids[1..], bound, parentId);
      EnumerateSound(rows, Some(k.id));
      EnumerateFromUnder(rows, kids[1..], bound);
      forall x | x in below ensures x != k.path {
        var row :| row in rows && row.path == x && DescendsFrom(rows, row, Some(k.id));
        DescendsIdGreater(rows, row, k.id);
        SamePathSameRow(rows, row, k);
      }
      NoDupConcat([k.path], below);
      forall x | x in [k.path] + below ensures x !in rest {
        var row: CategoryRow;
        if x == k.path {
          row := k;
        } else {
          row :| row in rows && row.path == x && DescendsFrom(rows, row, Some(k.id));
        }
        assert Under(rows, row, k);
        forall other, c | other in rows && c in kids[1..] && other.path == x
          ensures !Under(rows, other, c)
        {
          SamePathSameRow(rows, other, row);
          SiblingSubtreesDisjoint(rows, row, k, c);
        }
      }
      NoDupConcat([k.path] + below, rest);
    }
  }

  /** With every parent present, every row lies below the top level. */
  lemma {:induction false} DescendsFromTop(rows: seq<CategoryRow>, row: CategoryRow)
    requires ParentsBefore(rows) && ParentsExist(rows) && row in rows
    ensures DescendsFrom(rows, row, None)
    decreases row.id
  {
    if row.parentId.Some? {
      var up := FindById(rows, row.parentId.value).value;
      DescendsFromTop(rows, up);
    }
  }

  /**
   * The non-recursive listing is exactly the direct children in table order: the top-level
   * rows for a null parent, the rows whose `ParentId` is the parent's id otherwise, and
   * nothing for an unknown parent.
   */
  lemma GetAllByParentDirect(db: Catalogue, parent: Option<string>)
    requires db.Valid()
    ensures parent.None? ==> GetAllByParent(db, parent, false) == PathsOf(ChildrenOf(db.categories, None))
    ensures parent.Some? && !CheckExists(db, parent.value) ==> GetAllByParent(db, parent, false) == []
    ensures forall up :: up in db.categories && parent == Some(up.path) ==>
              GetAllByParent(db, parent, false) == PathsOf(ChildrenOf(db.categories, Some(up.id)))
  {
    var rows := db.categories;
    match parent
    case None =>
      EnumerateFromDirect(rows, ChildrenOf(rows, None), Rank(rows, None));
    case Some(p) =>
      if r :| r in rows && r.path == p {
        FindByPathOfRow(rows, r);
        EnumerateFromDirect(rows, ChildrenOf(rows, Some(r.id)), Rank(rows, Some(r.id)));
      }
  }

  /**
   * The recursive listing yields exactly the descendants: every row for a null parent, the
   * rows below the parent's row otherwise, nothing for an unknown parent; and nothing that is
   * not a row's path.
   */
  lemma GetAllByParentRecursive(db: Catalogue, parent: Option<string>)
    requires db.Valid()
    ensures forall x :: x in GetAllByParent(db, parent, true) ==> exists row :: row in db.categories && row.path == x
    ensures parent.None? ==> forall row :: row in db.categories ==> row.path in GetAllByParent(db, parent, true)
    ensures parent.Some? && !CheckExists(db, parent.value) ==> GetAllByParent(db, parent, true) == []
    ensures forall up, row :: up in db.categories && parent == Some(up.path) && row in db.categories ==>
              (row.path in GetAllByParent(db, parent, true) <==> DescendsFrom(db.categories, row, Some(up.id)))
    ensures NoDup(GetAllByParent(db, parent, true))
  {
    var rows := db.categories;
    match parent
    case None =>
      EnumerateSound(rows, None);
      EnumerateNoDup(rows, None);
      forall row | row in rows
        ensures row.path in GetAllByParent(db, parent, true)
      {
        DescendsFromTop(rows, row);
        EnumerateComplete(rows, row, None);
      }
    case Some(p) =>
      if up :| up in rows && up.path == p {
        FindByPathOfRow(rows, up);
        EnumerateSound(rows, Some(up.id));
        EnumerateNoDup(rows, Some(up.id));
        forall row | row in rows
          ensures row.path in GetAllByParent(db, parent, true) <==> DescendsFrom(rows, row, Some(up.id))
        {
          if DescendsFrom(rows, row, Some(up.id)) {
            EnumerateComplete(rows, row, Some(up.id));
          }
        }
        forall u | u in rows && parent == Some(u.path)
          ensures u == up
        {
        }
      }
  }

  /** The id stored for an optional category path: null, or the id of the row holding that path. */
  function IdOfPath(rows: seq<CategoryRow>, path: Option<string>): Option<nat>
    requires path.Some? ==> FindByPath(rows, path.value).Some?
  {
    match path
    case None => None
    case Some(p) => Some(FindByPath(rows, p).value.id)
  }

  /** `Where(c => c.Path != path)`: the table after an `ExecuteDelete` of `path`. */
  function WithoutPath(rows: seq<CategoryRow>, path: string): (rest: seq<CategoryRow>)
    ensures forall row :: row in rest <==> row in rows && row.path != path
    ensures NoDup(rows) ==> NoDup(rest)
  {
    Filter(rows, (row: CategoryRow) => row.path != path)
  }

  /** The row at `path` is still referenced by a child category or by a leaf (the restrict foreign keys). */
  predicate IsReferenced(db: Catalogue, path: string)
    reads db
  {
    match FindByPath(db.categories, path)
    case None => false
    case Some(row) =>
      ChildrenOf(db.categories, Some(row.id)) != [] || exists l :: l in db.leaves && l.categoryId == Some(row.id)
  }

  /**
   * Appending a row with the next id, a free path and an existing parent (or none) keeps
   * every constraint of both tables.
   */
  lemma AppendKeepsValid(rows: seq<CategoryRow>, leaves: seq<LeafRow>, nextId: nat, row: CategoryRow)
    requires CategoriesValid(rows, nextId) && LeavesValid(leaves, rows)
    requires row.id == nextId && FindByPath(rows, row.path).None?
    requires row.parentId.Some? ==> FindById(rows, row.parentId.value).Some?
    ensures CategoriesValid(rows + [row], nextId + 1) && LeavesValid(leaves, rows + [row])
  {
    var rows' := rows + [row];
    NoDupAppend(rows, row);
    forall r | r in rows' && r.parentId.Some?
      ensures FindById(rows', r.parentId.value).Some?
    {
      var up := FindById(rows, r.parentId.value).value;
      assert up in rows';
    }
    forall l | l in leaves && l.categoryId.Some?
      ensures FindById(rows', l.categoryId.value).Some?
    {
      var up := FindById(rows, l.categoryId.value).value;
      assert up in rows';
    }
  }

  /**
   * `AddAsync(category, parent)`. `FirstAsync` throws when the parent path has no row, and
   * `SaveChanges` throws on the unique index when the path is taken; `ok` is false exactly
   * then, and the table is unchanged. Otherwise one row is appended under a fresh id.
   */
  method Add(db: Catalogue, path: string, parent: Option<string>) returns (ok: bool)
    requires db.Valid()
    modifies db
    ensures db.Valid()
    ensures db.leaves == old(db.leaves)
    ensures ok <==> (parent.None? || old(CheckExists(db, parent.value))) && !old(CheckExists(db, path))
    ensures ok ==> db.categories == old(db.categories) + [CategoryRow(old(db.nextId), path, IdOfPath(old(db.categories), parent))]
    ensures ok ==> CheckExists(db, path)
    ensures ok ==> db.nextId == old(db.nextId) + 1
    ensures !ok ==> db.categories == old(db.categories) && db.nextId == old(db.nextId)
  {
    var parentId: Option<nat> := None;
    if parent.Some? {
      var parentRow := FindByPath(db.categories, parent.value);
      if parentRow.None? {
        return false;
      }
      parentId := Some(parentRow.value.id);
    }
    if FindByPath(db.categories, path).Some? {
      return false;
    }
    var row := CategoryRow(db.nextId, path, parentId);
    var rows := db.categories;
    AppendKeepsValid(rows, db.leaves, db.nextId, row);
    db.categories := rows + [row];
    db.nextId := db.nextId + 1;
    assert db.categories[|rows|] == row;
    ok := true;
  }

  /**
   * `DeleteAsync(category)`: `ExecuteDelete` of the rows with that path. When the row is still
   * referenced the database refuses (restrict) and `ok` is false; otherwise the row, if any,
   * is gone and every other row is unchanged.
   */
  method Delete(db: Catalogue, path: string) returns (ok: bool)
    requires db.Valid()
    modifies db
    ensures db.Valid()
    ensures db.leaves == old(db.leaves) && db.nextId == old(db.nextId)
    ensures ok <==> !old(IsReferenced(db, path))
    ensures ok ==> db.categories == WithoutPath(old(db.categories), path)
    ensures ok ==> !CheckExists(db, path)
    ensures !ok ==> db.categories == old(db.categories)
  {
    if IsReferenced(db, path) {
      return false;
    }
    var rows := db.categories;
    db.categories := WithoutPath(rows, path);
    forall r | r in db.categories && r.parentId.Some?
      ensures FindById(db.categories, r.parentId.value).Some?
    {
      var up := FindById(rows, r.parentId.value).value;
      if up.path == path {
        FindByPathOfRow(rows, up);
        assert false;
      }
      assert up in db.categories;
    }
    forall l | l in db.leaves && l.categoryId.Some?
      ensures FindById(db.categories, l.categoryId.value).Some?
    {
      var up := FindById(rows, l.categoryId.value).value;
      if up.path == path {
        FindByPathOfRow(rows, up);
        assert false;
      }
      assert up in db.categories;
    }
    ok := true;
  }
}
