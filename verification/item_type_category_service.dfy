/**
 * `ItemTypeCategoryService`: creating and deleting item-type categories, and building the
 * category tree with its item-type names.
 */
module ItemTypeCategoryService {
  import opened Wrappers
  import opened Tables
  import opened Category
  import opened CategoryRepository
  import opened Seqs
  import opened CategoryTree
  import opened TreeWalk
  import LeafRepository

  datatype CreateItemTypeCategoryStatus = Success | AlreadyExists | ParentNotFound
  datatype DeleteItemTypeCategoryStatus = Success | NotEmpty | NotFound

  /**
   * `CreateItemTypeCategoryAsync`: a missing parent gives `ParentNotFound`, a taken path
   * `AlreadyExists`, and both leave the table alone; otherwise exactly one row is added, at
   * `parent/name` (or `name` at the top level) and linked to the parent's row.
   */
  method CreateItemTypeCategory(db: Catalogue, name: string, parentPath: Option<string>)
    returns (status: CreateItemTypeCategoryStatus)
    requires db.Valid()
    modifies db
    ensures db.Valid()
    ensures db.leaves == old(db.leaves)
    ensures status == CreateItemTypeCategoryStatus.ParentNotFound <==>
              parentPath.Some? && !old(CheckExists(db, parentPath.value))
    ensures status == CreateItemTypeCategoryStatus.AlreadyExists <==>
              (parentPath.None? || old(CheckExists(db, parentPath.value)))
              && old(CheckExists(db, NewCategoryPath(name, parentPath)))
    ensures status == CreateItemTypeCategoryStatus.Success ==>
              db.categories == old(db.categories)
                + [CategoryRow(old(db.nextId), NewCategoryPath(name, parentPath), IdOfPath(old(db.categories), parentPath))]
              && db.nextId == old(db.nextId) + 1
    ensures status != CreateItemTypeCategoryStatus.Success ==>
              db.categories == old(db.categories) && db.nextId == old(db.nextId)
  {
    var path: string;
    if parentPath.Some? {
      if !CheckExists(db, parentPath.value) {
        return CreateItemTypeCategoryStatus.ParentNotFound;
      }
      path := FromNameAndParent(name, parentPath.value);
    } else {
      path := name;
    }
    var isExists := CheckExists(db, path);
    if isExists {
      return CreateItemTypeCategoryStatus.AlreadyExists;
    }
    var ok := Add(db, path, parentPath);
    assert ok;
    return CreateItemTypeCategoryStatus.Success;
  }

  /**
   * `DeleteItemTypeCategoryAsync`: `NotFound` for a missing path; `NotEmpty` when the category
   * has a child category or an item type; both delete nothing. Otherwise exactly that row goes.
   */
  method DeleteItemTypeCategory(db: Catalogue, path: string) returns (status: DeleteItemTypeCategoryStatus)
    requires db.Valid()
    modifies db
    ensures db.Valid()
    ensures db.leaves == old(db.leaves) && db.nextId == old(db.nextId)
    ensures status == DeleteItemTypeCategoryStatus.NotFound <==> !old(CheckExists(db, path))
    ensures status == DeleteItemTypeCategoryStatus.NotEmpty <==>
              old(CheckExists(db, path))
              && (old(GetAllByParent(db, Some(path), false)) != [] || old(LeafRepository.GetAllByCategory(db, Some(path))) != [])
    ensures status == DeleteItemTypeCategoryStatus.Success ==>
              db.categories == WithoutPath(old(db.categories), path) && !CheckExists(db, path)
    ensures status != DeleteItemTypeCategoryStatus.Success ==> db.categories == old(db.categories)
  {
    if !CheckExists(db, path) {
      return DeleteItemTypeCategoryStatus.NotFound;
    }
    var childCategories := GetAllByParent(db, Some(path), false);
    if childCategories != [] {
      return DeleteItemTypeCategoryStatus.NotEmpty;
    }
    var itemTypes := LeafRepository.GetAllByCategory(db, Some(path));
    if itemTypes != [] {
      return DeleteItemTypeCategoryStatus.NotEmpty;
    }
    LeafRepository.EmptyCategoryIsUnreferenced(db, path);
    var ok := Delete(db, path);
    assert ok;
    return DeleteItemTypeCategoryStatus.Success;
  }

  /** The name a tree node carries: empty for the root, the category's `Name` otherwise. */
  function NodeName(row: Option<CategoryRow>): string
  {
    match row
    case None => ""
    case Some(r) => NameOf(r.path)
  }

  /**
   * Node `n` of the result tree is complete for its row: its leaves are the names of the item
   * types in that category, and its children stand, in table order, for the category's direct
   * sub-categories (the top-level categories for the root).
   */
  ghost predicate Built(db: Catalogue, n: TreeResult, rowOf: map<TreeResult, Option<CategoryRow>>)
    reads db, n
  {
    && n in rowOf
    && n.leafNames == LeafRepository.NamesOf(LeafRepository.GetAllByCategory(db, PathOpt(rowOf[n])))
    && (var kidRows := ChildrenOf(db.categories, IdOpt(rowOf[n]));
        && |n.children| == |kidRows|
        && forall i :: 0 <= i < |kidRows| ==> n.children[i] in rowOf && rowOf[n.children[i]] == Some(kidRows[i]))
  }

  /**
   * Listing the sub-categories by a node's path yields the paths of its row's direct children:
   * the path a node is walked with identifies its row.
   */
  lemma ChildPaths(db: Catalogue, row: Option<CategoryRow>)
    requires db.Valid()
    requires row.Some? ==> row.value in db.categories
    ensures GetAllByParent(db, PathOpt(row), false) == PathsOf(ChildrenOf(db.categories, IdOpt(row)))
  {
    GetAllByParentDirect(db, PathOpt(row));
  }

  /** The `foreach` over the sub-categories: one new node per path, named by the path's last segment. */
  method NewChildren(categories: seq<string>) returns (kids: seq<TreeResult>)
    ensures |kids| == |categories|
    ensures forall i :: 0 <= i < |kids| ==> fresh(kids[i]) && kids[i].name == NameOf(categories[i])
    ensures forall i, j :: 0 <= i < j < |kids| ==> kids[i] != kids[j]
  {
    kids := [];
    for i := 0 to |categories|
      invariant |kids| == i
      invariant forall k :: 0 <= k < i ==> fresh(kids[k]) && kids[k].name == NameOf(categories[k])
      invariant forall k, j :: 0 <= k < j < i ==> kids[k] != kids[j]
    {
      var child := new CategoryEntity(categories[i]);
      var name := child.Name();
      var node := new TreeResult(name);
      kids := kids + [node];
    }
  }

  /** Each node carries the name of its row. */
  ghost predicate Named(nodes: set<TreeResult>, rowOf: map<TreeResult, Option<CategoryRow>>)
  {
    forall n :: n in nodes ==> n in rowOf && n.name == NodeName(rowOf[n])
  }

  /** Each visited node is complete for its row and linked to its children. */
  ghost predicate Done(db: Catalogue, root: TreeResult, nodes: set<TreeResult>, parentOf: map<TreeResult, TreeResult>,
                       rowOf: map<TreeResult, Option<CategoryRow>>, visited: set<TreeResult>)
    reads db, visited
  {
    forall n {:trigger Built(db, n, rowOf)} :: n in visited ==>
      n in nodes && Built(db, n, rowOf) && Linked(n, root, nodes, parentOf)
  }

  /** The new children carry the names of their rows, so every node still does. */
  lemma NamedStep(nodes: set<TreeResult>, rowOf: map<TreeResult, Option<CategoryRow>>, kids: seq<TreeResult>, kidRows: seq<CategoryRow>)
    requires Named(nodes, rowOf)
    requires NewKids(nodes, kids, kidRows)
    requires forall i :: 0 <= i < |kids| ==> kids[i].name == NameOf(kidRows[i].path)
    ensures Named(nodes + Elements(kids), rowOf + Zip(kids, Somes(kidRows)))
  {
    var z := Zip(kids, Somes(kidRows));
    var rowOf' := rowOf + z;
    forall n | n in nodes + Elements(kids) ensures n in rowOf' && n.name == NodeName(rowOf'[n]) {
      if n in nodes {
        assert n !in kids;
        assert rowOf'[n] == rowOf[n];
      } else {
        var k :| 0 <= k < |kids| && kids[k] == n;
        assert z[n] == Somes(kidRows)[k];
      }
    }
  }

  /** Growing the node set and the maps without touching the old nodes' entries keeps `Done`. */
  lemma DoneGrown(db: Catalogue, root: TreeResult, nodes: set<TreeResult>, parentOf: map<TreeResult, TreeResult>,
                  rowOf: map<TreeResult, Option<CategoryRow>>, visited: set<TreeResult>, nodes': set<TreeResult>,
                  parentOf': map<TreeResult, TreeResult>, rowOf': map<TreeResult, Option<CategoryRow>>)
    requires Done(db, root, nodes, parentOf, rowOf, visited)
    requires nodes <= nodes'
    requires forall n :: n in nodes && n in rowOf ==> n in rowOf' && rowOf'[n] == rowOf[n]
    requires forall n :: n in nodes && n in parentOf ==> n in parentOf' && parentOf'[n] == parentOf[n]
    ensures Done(db, root, nodes', parentOf', rowOf', visited)
  {
    forall n | n in visited ensures n in nodes' && Built(db, n, rowOf') && Linked(n, root, nodes', parentOf') {
      assert Built(db, n, rowOf);
      assert n in nodes && Linked(n, root, nodes, parentOf);
    }
  }

  /** A node that is complete and linked can join the visited ones. */
  lemma DoneAdd(db: Catalogue, root: TreeResult, nodes: set<TreeResult>, parentOf: map<TreeResult, TreeResult>,
                rowOf: map<TreeResult, Option<CategoryRow>>, visited: set<TreeResult>, current: TreeResult)
    requires Done(db, root, nodes, parentOf, rowOf, visited)
    requires current in nodes && Built(db, current, rowOf) && Linked(current, root, nodes, parentOf)
    ensures Done(db, root, nodes, parentOf, rowOf, visited + {current})
  {
    forall n | n in visited + {current} ensures n in nodes && Built(db, n, rowOf) && Linked(n, root, nodes, parentOf) {
      if n != current {
        assert Built(db, n, rowOf);
      }
    }
  }

  /**
   * Once the popped node holds its item-type names and its new children, it is complete and
   * linked, and the nodes visited before it stay so over the grown maps.
   */
  lemma DoneStep(db: Catalogue, current: TreeResult, kids: seq<TreeResult>, kidRows: seq<CategoryRow>,
                 root: TreeResult, nodes: set<TreeResult>, parentOf: map<TreeResult, TreeResult>,
                 rowOf: map<TreeResult, Option<CategoryRow>>, visited: set<TreeResult>)
    requires Done(db, root, nodes, parentOf, rowOf, visited)
    requires root in nodes && current in nodes && current in rowOf
    requires current.leafNames == LeafRepository.NamesOf(LeafRepository.GetAllByCategory(db, PathOpt(rowOf[current])))
    requires kidRows == ChildrenOf(db.categories, IdOpt(rowOf[current]))
    requires current.children == kids
    requires |kids| == |kidRows| && forall i :: 0 <= i < |kids| ==> kids[i] !in nodes
    requires forall i, j :: 0 <= i < j < |kids| ==> kids[i] != kids[j]
    ensures Done(db, root, nodes + Elements(kids), parentOf + Zip(kids, Repeat(current, |kids|)),
                 rowOf + Zip(kids, Somes(kidRows)), visited + {current})
  {
    var nodes', parentOf', rowOf' := nodes + Elements(kids), parentOf + Zip(kids, Repeat(current, |kids|)), rowOf + Zip(kids, Somes(kidRows));
    forall n | n in nodes ensures n !in kids {
    }
    DoneGrown(db, root, nodes, parentOf, rowOf, visited, nodes', parentOf', rowOf');
    forall i | 0 <= i < |kids| ensures kids[i] in rowOf' && rowOf'[kids[i]] == Some(kidRows[i]) && parentOf'[kids[i]] == current {
    }
    assert Built(db, current, rowOf');
    assert Linked(current, root, nodes', parentOf');
    DoneAdd(db, root, nodes', parentOf', rowOf', visited, current);
  }

  /**
   * The loop body's work on the popped node: one new child per sub-category path, then its
   * item-type names and its child list. Afterwards it and every node completed before it are
   * complete and linked, over the node set and maps grown by its children.
   */
  method FillNode(current: TreeResult, itemNames: seq<string>, categories: seq<string>,
                  ghost kidRows: seq<CategoryRow>, ghost nodes: set<TreeResult>)
    returns (kids: seq<TreeResult>)
    modifies current
    requires categories == PathsOf(kidRows)
    requires forall i, j :: 0 <= i < j < |kidRows| ==> kidRows[i] != kidRows[j]
    ensures NewKids(nodes, kids, kidRows)
    ensures forall i :: 0 <= i < |kids| ==> fresh(kids[i]) && kids[i].name == NameOf(kidRows[i].path)
    ensures current.leafNames == itemNames && current.children == kids
  {
    kids := NewChildren(categories);
    current.leafNames := itemNames;
    current.children := kids;
  }

  /** Once every node is visited, the nodes form a tree in which every node is complete. */
  lemma CompleteTree(db: Catalogue, root: TreeResult, nodes: set<TreeResult>, parentOf: map<TreeResult, TreeResult>,
                     rowOf: map<TreeResult, Option<CategoryRow>>)
    requires root in nodes
    requires Done(db, root, nodes, parentOf, rowOf, nodes)
    ensures IsTree(root, nodes, parentOf)
    ensures forall n :: n in nodes ==> Built(db, n, rowOf)
  {
    forall n | n in nodes ensures Linked(n, root, nodes, parentOf) && Built(db, n, rowOf) {
      assert n in nodes && Built(db, n, rowOf) && Linked(n, root, nodes, parentOf);
    }
  }

  /** When the stack runs empty, the walk's state is the tree `GetTree` promises. */
  lemma WalkFinished(db: Catalogue, rows: seq<CategoryRow>, root: TreeResult, nodes: set<TreeResult>,
                     parentOf: map<TreeResult, TreeResult>, rowOf: map<TreeResult, Option<CategoryRow>>,
                     nodeOf: map<CategoryRow, TreeResult>, stack: seq<TreeResult>, paths: seq<Option<string>>,
                     visited: set<TreeResult>, expanded: set<Option<nat>>, notPushed: set<CategoryRow>)
    requires db.Valid() && rows == db.categories && |stack| == 0
    requires Walk(rows, root, nodes, parentOf, rowOf, nodeOf, stack, paths, visited, expanded, notPushed)
    requires Named(nodes, rowOf)
    requires Done(db, root, nodes, parentOf, rowOf, visited)
    ensures IsTree(root, nodes, parentOf)
    ensures root in rowOf && rowOf[root] == None
    ensures forall n :: n in nodes ==> n in rowOf && n.name == NodeName(rowOf[n]) && Built(db, n, rowOf)
    ensures forall n :: n in nodes && n in rowOf && rowOf[n].Some? ==> rowOf[n].value in db.categories
    ensures forall r :: r in db.categories ==> r in nodeOf && nodeOf[r] in nodes && nodeOf[r] in rowOf && rowOf[nodeOf[r]] == Some(r)
  {
    WalkDone(rows, root, nodes, parentOf, rowOf, nodeOf, paths, visited, expanded, notPushed);
    CompleteTree(db, root, nodes, parentOf, rowOf);
  }

  /**
   * The two queries of one turn of the walk, for the node standing for `row`: the names of the
   * category's item types, and the paths of its direct sub-categories, which are the paths of
   * the row's child rows in table order.
   */
  method ReadCategory(db: Catalogue, path: Option<string>, ghost row: Option<CategoryRow>)
    returns (itemNames: seq<string>, categories: seq<string>, ghost kidRows: seq<CategoryRow>)
    requires db.Valid()
    requires row.Some? ==> row.value in db.categories
    requires path == PathOpt(row)
    ensures itemNames == LeafRepository.NamesOf(LeafRepository.GetAllByCategory(db, PathOpt(row)))
    ensures kidRows == ChildrenOf(db.categories, IdOpt(row))
    ensures categories == PathsOf(kidRows)
    ensures forall i, j :: 0 <= i < j < |kidRows| ==> kidRows[i] != kidRows[j]
  {
    var itemTypes := LeafRepository.GetAllByCategory(db, path);
    itemNames := LeafRepository.NamesOf(itemTypes);
    categories := GetAllByParent(db, path, false);
    kidRows := ChildrenOf(db.categories, IdOpt(row));
    ChildPaths(db, row);
    NoDupDistinct(kidRows);
  }

  /**
   * The first half of one turn: run the two queries for the category of the node on top of
   * the stack, and fill that node in with its item names and one fresh child per child row.
   */
  method Visit(db: Catalogue, current: TreeResult, path: Option<string>,
               ghost root: TreeResult, ghost nodes: set<TreeResult>, ghost parentOf: map<TreeResult, TreeResult>,
               ghost rowOf: map<TreeResult, Option<CategoryRow>>, ghost visited: set<TreeResult>)
    returns (kids: seq<TreeResult>, childPaths: seq<Option<string>>, ghost kidRows: seq<CategoryRow>)
    requires db.Valid()
    requires root in nodes && current in nodes && current !in visited && current in rowOf
    requires path == PathOpt(rowOf[current]) && (rowOf[current].Some? ==> rowOf[current].value in db.categories)
    requires Done(db, root, nodes, parentOf, rowOf, visited)
    modifies current
    ensures kidRows == ChildrenOf(db.categories, IdOpt(rowOf[current]))
    ensures NewKids(nodes, kids, kidRows)
    ensures forall i :: 0 <= i < |kids| ==> fresh(kids[i]) && kids[i].name == NameOf(kidRows[i].path)
    ensures childPaths == PresentPaths(kidRows)
    ensures Done(db, root, nodes + Elements(kids), parentOf + Zip(kids, Repeat(current, |kids|)),
                 rowOf + Zip(kids, Somes(kidRows)), visited + {current})
  {
    var itemNames, categories;
    itemNames, categories, kidRows := ReadCategory(db, path, rowOf[current]);
    kids := FillNode(current, itemNames, categories, kidRows, nodes);
    assert Done(db, root, nodes, parentOf, rowOf, visited);
    DoneStep(db, current, kids, kidRows, root, nodes, parentOf, rowOf, visited);
    childPaths := Somes(categories);
    assert childPaths == PresentPaths(kidRows);
  }

  /**
   * One turn of the walk: pop the top node, fill it in and push its new children with their
   * paths. The walk's state, the names and the completed nodes stay consistent; the new nodes
   * are fresh; and either a category row is pushed for the first time or the stack shrinks.
   */
  method Expand(db: Catalogue, ghost rows: seq<CategoryRow>, stack: seq<TreeResult>, paths: seq<Option<string>>,
                ghost root: TreeResult, ghost nodes: set<TreeResult>, ghost parentOf: map<TreeResult, TreeResult>,
                ghost rowOf: map<TreeResult, Option<CategoryRow>>, ghost nodeOf: map<CategoryRow, TreeResult>,
                ghost visited: set<TreeResult>, ghost expanded: set<Option<nat>>, ghost notPushed: set<CategoryRow>)
    returns (stack': seq<TreeResult>, paths': seq<Option<string>>, ghost nodes': set<TreeResult>,
             ghost parentOf': map<TreeResult, TreeResult>, ghost rowOf': map<TreeResult, Option<CategoryRow>>,
             ghost nodeOf': map<CategoryRow, TreeResult>, ghost visited': set<TreeResult>,
             ghost expanded': set<Option<nat>>, ghost notPushed': set<CategoryRow>)
    requires db.Valid() && rows == db.categories && |stack| > 0
    requires Walk(rows, root, nodes, parentOf, rowOf, nodeOf, stack, paths, visited, expanded, notPushed)
    requires Named(nodes, rowOf)
    requires Done(db, root, nodes, parentOf, rowOf, visited)
    modifies stack[|stack| - 1]
    ensures Walk(rows, root, nodes', parentOf', rowOf', nodeOf', stack', paths', visited', expanded', notPushed')
    ensures Named(nodes', rowOf')
    ensures Done(db, root, nodes', parentOf', rowOf', visited')
    ensures nodes <= nodes' && forall n :: n in nodes' && n !in nodes ==> fresh(n)
    ensures notPushed' < notPushed || (notPushed' == notPushed && |stack'| < |stack|)
  {
    var current := stack[|stack| - 1];
    var kids, childPaths;
    ghost var kidRows;
    WalkTop(rows, root, nodes, parentOf, rowOf, nodeOf, stack, paths, visited, expanded, notPushed);
    kids, childPaths, kidRows := Visit(db, current, paths[|paths| - 1], root, nodes, parentOf, rowOf, visited);
    NamedStep(nodes, rowOf, kids, kidRows);
    WalkStep(rows, root, nodes, parentOf, rowOf, nodeOf, stack, paths, visited, expanded, notPushed, kids, kidRows);
    stack', paths' := stack[..|stack| - 1] + kids, paths[..|paths| - 1] + childPaths;
    nodes', visited', expanded', notPushed' := nodes + Elements(kids), visited + {current}, expanded + {IdOpt(rowOf[current])}, notPushed - Elements(kidRows);
    parentOf', rowOf', nodeOf' := parentOf + Zip(kids, Repeat(current, |kids|)), rowOf + Zip(kids, Somes(kidRows)), nodeOf + Zip(kidRows, kids);
  }

  /**
   * `GetTreeAsync`: a stack walk from an unnamed root that gives every node the names of its
   * category's item types and one child per direct sub-category, each pushed with its own
   * path. The result is a tree of new nodes with one node per category row and every node
   * complete for its row.
   */
  method GetTree(db: Catalogue)
    returns (root: TreeResult, ghost nodes: set<TreeResult>, ghost parentOf: map<TreeResult, TreeResult>,
             ghost rowOf: map<TreeResult, Option<CategoryRow>>, ghost nodeOf: map<CategoryRow, TreeResult>)
    requires db.Valid()
    ensures IsTree(root, nodes, parentOf)
    ensures root in rowOf && rowOf[root] == None
    ensures forall n :: n in nodes ==> fresh(n) && n in rowOf && n.name == NodeName(rowOf[n]) && Built(db, n, rowOf)
    ensures forall n :: n in nodes && n in rowOf && rowOf[n].Some? ==> rowOf[n].value in db.categories
    ensures forall r :: r in db.categories ==> r in nodeOf && nodeOf[r] in nodes && nodeOf[r] in rowOf && rowOf[nodeOf[r]] == Some(r)
  {
    root := new TreeResult("");
    var stack := [root];
    var paths: seq<Option<string>> := [None];
    nodes, parentOf, rowOf, nodeOf := {root}, map[], map[root := None], map[];
    ghost var visited: set<TreeResult> := {};
    ghost var expanded: set<Option<nat>> := {};
    ghost var rows := db.categories;
    ghost var notPushed := Elements(rows);
    WalkStart(rows, root);
    while |stack| > 0
      invariant Walk(rows, root, nodes, parentOf, rowOf, nodeOf, stack, paths, visited, expanded, notPushed)
      invariant Named(nodes, rowOf)
      invariant Done(db, root, nodes, parentOf, rowOf, visited)
      invariant forall n :: n in nodes ==> fresh(n)
      decreases notPushed, |stack|
    {
      stack, paths, nodes, parentOf, rowOf, nodeOf, visited, expanded, notPushed :=
        Expand(db, rows, stack, paths, root, nodes, parentOf, rowOf, nodeOf, visited, expanded, notPushed);
    }
    WalkFinished(db, rows, root, nodes, parentOf, rowOf, nodeOf, stack, paths, visited, expanded, notPushed);
  }
}
