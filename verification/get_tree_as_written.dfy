/**
 * The path stack of `GetTreeAsync` exactly as the loop builds it: the root is walked with the
 * empty path (and queried with a null category), and each child is pushed with its parent's
 * path and its own `Name` joined by '/', or its `Name` alone under the root. That rebuilt path
 * is the child's real `Path` only when every path is its parent's path plus a non-empty,
 * slash-free last segment. A top-level category whose `Name` is empty (path "" or ending in
 * '/') sends the loop back to the root forever; below the root an empty `Name` only sends the
 * walk to a path with no row, so that category is shown empty.
 */
module GetTreeAsWritten {
  import opened Wrappers
  import opened Tables
  import opened Category
  import opened CategoryRepository
  import opened Seqs
  import ItemTypeCategoryService

  /** `path != "" ? new Category { Path = path } : null`: the category the loop queries with. */
  function CategoryOfPath(path: string): (category: Option<string>)
    ensures category.None? <==> path == ""
    ensures category.Some? ==> category.value == path
  {
    if path == "" then None else Some(path)
  }

  /** `path == "" ? child.Name : $"{path}/{child.Name}"`: the path pushed for one child. */
  function ChildPath(path: string, child: string): (pushed: string)
    ensures NameOf(pushed) == NameOf(child)
  {
    var name := NameOf(child);
    NameOfIsLastSegment(child);
    if path == "" then
      NameOfIsLastSegment(name);
      name
    else
      NameOfFromNameAndParent(name, path);
      assert FromNameAndParent(name, path) == path + "/" + name;
      path + "/" + name
  }

  /** The paths pushed, in order, for the children listed under `path`. */
  function Pushes(db: Catalogue, path: string): (pushed: seq<string>)
    reads db
    requires db.Valid()
    ensures |pushed| == |GetAllByParent(db, CategoryOfPath(path), false)|
    ensures forall i :: 0 <= i < |pushed| ==>
              pushed[i] == ChildPath(path, GetAllByParent(db, CategoryOfPath(path), false)[i])
  {
    var children := GetAllByParent(db, CategoryOfPath(path), false);
    seq(|children|, i requires 0 <= i < |children| => ChildPath(path, children[i]))
  }

  /** One turn of the loop on the path stack: pop the top path, push its children's rebuilt paths. */
  function Step(db: Catalogue, paths: seq<string>): (next: seq<string>)
    reads db
    requires db.Valid() && |paths| > 0
    ensures
      var children := GetAllByParent(db, CategoryOfPath(paths[|paths| - 1]), false);
      |next| == |paths| - 1 + |children|
      && next[..|paths| - 1] == paths[..|paths| - 1]
      && forall i :: 0 <= i < |children| ==> NameOf(next[|paths| - 1 + i]) == NameOf(children[i])
  {
    paths[..|paths| - 1] + Pushes(db, paths[|paths| - 1])
  }

  /** The path stack after `k` turns of the loop, or `None` once the stack ran empty. */
  function Run(db: Catalogue, paths: seq<string>, k: nat): (stack: Option<seq<string>>)
    reads db
    requires db.Valid()
    ensures paths == [] ==> (stack.Some? <==> k == 0)
    ensures k > 0 && stack.Some? ==> paths != []
    decreases k
  {
    if k == 0 then Some(paths)
    else if paths == [] then None
    else Run(db, Step(db, paths), k - 1)
  }

  /**
   * Every path is its parent's path (or nothing, at the top level) followed by a non-empty
   * last segment: what `CreateItemTypeCategoryAsync` stores for names without '/'.
   */
  ghost predicate PathsFollowNames(rows: seq<CategoryRow>)
  {
    forall r :: r in rows ==>
      NameOf(r.path) != "" &&
      match r.parentId
      case None => r.path == NameOf(r.path)
      case Some(p) => FindById(rows, p).Some? && r.path == FindById(rows, p).value.path + "/" + NameOf(r.path)
  }

  /**
   * Where paths follow names, the loop's rebuilt paths are the children's own paths: the
   * pushes for a node walked with its row's path (the empty path for the root) are the paths
   * of that row's children, as the corrected walk pushes them.
   */
  lemma PushesAreChildPaths(db: Catalogue, row: Option<CategoryRow>)
    requires db.Valid() && PathsFollowNames(db.categories)
    requires row.Some? ==> row.value in db.categories
    ensures
      var path := if row.None? then "" else row.value.path;
      Pushes(db, path) == PathsOf(ChildrenOf(db.categories, if row.None? then None else Some(row.value.id)))
  {
    var rows := db.categories;
    var path := if row.None? then "" else row.value.path;
    var kids := ChildrenOf(rows, if row.None? then None else Some(row.value.id));
    GetAllByParentDirect(db, CategoryOfPath(path));
    if row.Some? {
      assert NameOf(row.value.path) != "";
    }
    assert GetAllByParent(db, CategoryOfPath(path), false) == PathsOf(kids);
    forall i | 0 <= i < |kids| ensures ChildPath(path, kids[i].path) == kids[i].path {
      assert kids[i] in rows;
      if row.Some? {
        FindByIdOfRow(rows, row.value);
      }
    }
  }

  /**
   * Below the root the loop never comes back to a path it popped: every path pushed for a
   * non-empty path extends it by a '/' and a segment, so it is strictly longer. Only the root's
   * empty path can be pushed again, and only by a top-level category whose `Name` is empty.
   */
  lemma PushesGrow(db: Catalogue, path: string)
    requires db.Valid() && path != ""
    ensures forall p :: p in Pushes(db, path) ==> |p| > |path| && p[..|path|] == path && p[|path|] == '/'
  {
    var children := GetAllByParent(db, CategoryOfPath(path), false);
    var pushed := Pushes(db, path);
    forall i | 0 <= i < |pushed| ensures |pushed[i]| > |path| && pushed[i][..|path|] == path && pushed[i][|path|] == '/' {
      var name := NameOf(children[i]);
      assert pushed[i] == ChildPath(path, children[i]) == FromNameAndParent(name, path);
    }
  }

  /**
   * The service stores such tables: on a new database, creating the category "a/" with no
   * parent succeeds, since nothing checks the name.
   */
  method EmptyNameTable() returns (db: Catalogue)
    ensures fresh(db) && db.Valid() && db.categories == [CategoryRow(1, "a/", None)]
  {
    db := new Catalogue();
    var status := ItemTypeCategoryService.CreateItemTypeCategory(db, "a/", None);
    assert db.categories == [CategoryRow(1, "a/", None)];
  }

  /** Creating the category "" with no parent succeeds as well, and stores the empty path. */
  method EmptyPathTable() returns (db: Catalogue)
    ensures fresh(db) && db.Valid() && db.categories == [CategoryRow(1, "", None)]
  {
    db := new Catalogue();
    var status := ItemTypeCategoryService.CreateItemTypeCategory(db, "", None);
    assert db.categories == [CategoryRow(1, "", None)];
  }

  /**
   * A top-level category whose `Name` is empty (its path is "" or ends in '/', as "a/" does)
   * is listed by the root, which pushes its rebuilt path "": the root's own path again, so one
   * turn of the loop returns to the starting stack.
   */
  lemma EmptyNameStep(db: Catalogue, top: string)
    requires db.Valid() && db.categories == [CategoryRow(1, top, None)] && NameOf(top) == ""
    ensures Step(db, [""]) == [""]
  {
    var rows := db.categories;
    assert GetAllByParent(db, CategoryOfPath(""), false) == [top] by {
      GetAllByParentDirect(db, None);
      FilterKeepsAll(rows, (row: CategoryRow) => row.parentId == None);
    }
    assert ChildPath("", top) == "";
  }

  /** So the loop never ends on such a table: after any number of turns the stack is `[""]` again. */
  lemma {:induction false} EmptyNameLoopsForever(db: Catalogue, top: string, k: nat)
    requires db.Valid() && db.categories == [CategoryRow(1, top, None)] && NameOf(top) == ""
    ensures Run(db, [""], k) == Some([""])
  {
    if k > 0 {
      EmptyNameStep(db, top);
      EmptyNameLoopsForever(db, top, k - 1);
    }
  }

  /** Creating "a", then "b/" under it, stores the nested path "a/b/", whose `Name` is empty. */
  method NestedEmptyNameTable() returns (db: Catalogue)
    ensures fresh(db) && db.Valid()
    ensures db.categories == [CategoryRow(1, "a", None), CategoryRow(2, "a/b/", Some(1))]
  {
    db := new Catalogue();
    var first := ItemTypeCategoryService.CreateItemTypeCategory(db, "a", None);
    assert db.categories == [CategoryRow(1, "a", None)];
    CreateUnderA(db);
  }

  /** The second create of `NestedEmptyNameTable`: "b/" under "a" is accepted. */
  method CreateUnderA(db: Catalogue)
    requires db.Valid() && db.categories == [CategoryRow(1, "a", None)] && db.nextId == 2
    modifies db
    ensures db.Valid() && db.categories == [CategoryRow(1, "a", None), CategoryRow(2, "a/b/", Some(1))]
  {
    assert CheckExists(db, "a") && !CheckExists(db, "a/b/");
    assert NewCategoryPath("b/", Some("a")) == "a/b/";
    var status := ItemTypeCategoryService.CreateItemTypeCategory(db, "b/", Some("a"));
    assert IdOfPath([CategoryRow(1, "a", None)], Some("a")) == Some(1);
  }

  /** The rebuilt paths each turn pushes on the table of `NestedEmptyNameTable`. */
  lemma NestedEmptyNamePushes(db: Catalogue)
    requires db.Valid() && db.categories == [CategoryRow(1, "a", None), CategoryRow(2, "a/b/", Some(1))]
    ensures Pushes(db, "") == ["a"] && Pushes(db, "a") == ["a/"] && Pushes(db, "a/") == []
  {
    var rows := db.categories;
    assert Pushes(db, "") == ["a"] by {
      assert NameOf("a") == "a";
      GetAllByParentDirect(db, None);
      assert ChildrenOf(rows, None) == [rows[0]];
    }
    assert Pushes(db, "a") == ["a/"] by {
      assert LastIndexOf("a/b/", '/') == 3;
      assert NameOf("a/b/") == "";
      GetAllByParentDirect(db, Some("a"));
      assert rows[0] in rows && Some("a") == Some(rows[0].path);
      assert ChildrenOf(rows, Some(1)) == [rows[1]];
      assert GetAllByParent(db, CategoryOfPath("a"), false) == ["a/b/"];
      assert ChildPath("a", "a/b/") == "a/";
    }
    assert Pushes(db, "a/") == [] by {
      GetAllByParentDirect(db, Some("a/"));
      assert !CheckExists(db, "a/");
    }
  }

  /**
   * A nested empty name does not make the loop run forever: "a/b/" under "a" is pushed as
   * "a/", which names no row, so its turn lists nothing and the walk ends after three turns,
   * showing "a/b/" as a node with no children.
   */
  lemma NestedEmptyNameEnds(db: Catalogue)
    requires db.Valid() && db.categories == [CategoryRow(1, "a", None), CategoryRow(2, "a/b/", Some(1))]
    ensures Step(db, [""]) == ["a"]
    ensures Step(db, ["a"]) == ["a/"]
    ensures Step(db, ["a/"]) == []
    ensures Run(db, [""], 3) == Some([])
  {
    NestedEmptyNamePushes(db);
    assert Run(db, ["a/"], 1) == Run(db, [], 0);
    assert Run(db, ["a"], 2) == Run(db, ["a/"], 1);
    assert Run(db, [""], 3) == Run(db, ["a"], 2);
  }
}
