/**
 * `ItemTypeCategoryController`: the tree action copies the service's tree into response nodes;
 * the create and delete actions turn the service's status into an action result.
 */
module ItemTypeCategoryController {
  import opened Wrappers
  import opened Tables
  import opened Category
  import opened CategoryRepository
  import opened CategoryTree
  import opened ActionResults
  import LeafRepository
  import opened ItemTypeCategoryService

  /** The `status switch` of `Post`: 200 for `Success`, 409 for `AlreadyExists`, 404 for `ParentNotFound`. */
  function PostResult(status: CreateItemTypeCategoryStatus): (r: ActionResult<CreateItemTypeCategoryStatus>)
    ensures r.body == status
    ensures r.StatusCode() == 200 <==> status == CreateItemTypeCategoryStatus.Success
    ensures r.StatusCode() == 409 <==> status == CreateItemTypeCategoryStatus.AlreadyExists
    ensures r.StatusCode() == 404 <==> status == CreateItemTypeCategoryStatus.ParentNotFound
  {
    match status
    case Success => ActionResult.Ok(status)
    case AlreadyExists => ActionResult.Conflict(status)
    case ParentNotFound => ActionResult.NotFound(status)
  }

  /** The `status switch` of `Delete`: 200 for `Success`, 409 for `NotEmpty`, 404 for `NotFound`. */
  function DeleteResult(status: DeleteItemTypeCategoryStatus): (r: ActionResult<DeleteItemTypeCategoryStatus>)
    ensures r.body == status
    ensures r.StatusCode() == 200 <==> status == DeleteItemTypeCategoryStatus.Success
    ensures r.StatusCode() == 409 <==> status == DeleteItemTypeCategoryStatus.NotEmpty
    ensures r.StatusCode() == 404 <==> status == DeleteItemTypeCategoryStatus.NotFound
  {
    match status
    case Success => ActionResult.Ok(status)
    case NotEmpty => ActionResult.Conflict(status)
    case NotFound => ActionResult.NotFound(status)
  }

  /**
   * `GET api/item-type-categories/tree`: the response root copies the service's root, and every
   * response node copies a node the service built from the table, down to its children.
   */
  method GetTree(db: Catalogue)
    returns (response: TreeResponse, root: TreeResult, ghost respOf: map<TreeResult, TreeResponse>,
             ghost rowOf: map<TreeResult, Option<CategoryRow>>)
    requires db.Valid()
    ensures root in respOf && respOf[root] == response && root in rowOf && rowOf[root] == None
    ensures forall n :: n in respOf ==> fresh(respOf[n]) && Copies(respOf[n], n, respOf)
    ensures forall n :: n in respOf ==> n in rowOf && n.name == NodeName(rowOf[n]) && Built(db, n, rowOf)
    ensures forall a, b :: a in respOf && b in respOf && a != b ==> respOf[a] != respOf[b]
  {
    ghost var nodes, parentOf, nodeOf;
    root, nodes, parentOf, rowOf, nodeOf := ItemTypeCategoryService.GetTree(db);
    response, respOf := CopyBuilt(db, root, nodes, parentOf, rowOf);
  }

  /** The copy loop over a tree the service built: each copied node keeps what it was built from. */
  method CopyBuilt(db: Catalogue, root: TreeResult, ghost nodes: set<TreeResult>, ghost parentOf: map<TreeResult, TreeResult>,
                   ghost rowOf: map<TreeResult, Option<CategoryRow>>)
    returns (response: TreeResponse, ghost respOf: map<TreeResult, TreeResponse>)
    requires IsTree(root, nodes, parentOf)
    requires forall n :: n in nodes ==> n in rowOf && n.name == NodeName(rowOf[n]) && Built(db, n, rowOf)
    ensures root in respOf && respOf[root] == response
    ensures forall n :: n in respOf ==> fresh(respOf[n]) && Copies(respOf[n], n, respOf)
    ensures forall n :: n in respOf ==> n in rowOf && n.name == NodeName(rowOf[n]) && Built(db, n, rowOf)
    ensures forall a, b :: a in respOf && b in respOf && a != b ==> respOf[a] != respOf[b]
  {
    response, respOf := CopyTree(root, nodes, parentOf);
  }

  /**
   * `POST api/item-type-categories`: 404 exactly when the parent is missing, 409 exactly when
   * the new path is taken, and 200 exactly when the category row was added.
   */
  method Post(db: Catalogue, name: string, parentPath: Option<string>)
    returns (r: ActionResult<CreateItemTypeCategoryStatus>)
    requires db.Valid()
    modifies db
    ensures db.Valid()
    ensures r.StatusCode() == 404 <==> parentPath.Some? && !old(CheckExists(db, parentPath.value))
    ensures r.StatusCode() == 409 <==>
              (parentPath.None? || old(CheckExists(db, parentPath.value)))
              && old(CheckExists(db, NewCategoryPath(name, parentPath)))
    ensures r.StatusCode() == 200 ==>
              db.categories == old(db.categories)
                + [CategoryRow(old(db.nextId), NewCategoryPath(name, parentPath), IdOfPath(old(db.categories), parentPath))]
    ensures r.StatusCode() != 200 ==> db.categories == old(db.categories)
  {
    var status := CreateItemTypeCategory(db, name, parentPath);
    r := PostResult(status);
  }

  /**
   * `DELETE api/item-type-categories`: 404 exactly when the path is missing, 409 exactly when
   * it still has children or item types, and 200 when its row was removed.
   */
  method Delete(db: Catalogue, path: string) returns (r: ActionResult<DeleteItemTypeCategoryStatus>)
    requires db.Valid()
    modifies db
    ensures db.Valid()
    ensures r.StatusCode() == 404 <==> !old(CheckExists(db, path))
    ensures r.StatusCode() == 409 <==>
              old(CheckExists(db, path))
              && (old(GetAllByParent(db, Some(path), false)) != [] || old(LeafRepository.GetAllByCategory(db, Some(path))) != [])
    ensures r.StatusCode() == 200 ==> db.categories == WithoutPath(old(db.categories), path) && !CheckExists(db, path)
    ensures r.StatusCode() != 200 ==> db.categories == old(db.categories)
  {
    var status := DeleteItemTypeCategory(db, path);
    r := DeleteResult(status);
  }
}
