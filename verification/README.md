# Warehome category core in Dafny

Warehome records item types and storages. Each one may be filed under a category, and the
categories of each kind form a hierarchy named by slash-separated paths (`tools/hand/saws`).
This project models the part of Warehome that keeps those hierarchies:

- **Paths.** `Category<T>` derives a category's `Name` (the last path segment) and builds a
  child's path from its parent's path.
- **Repositories.** The four Entity Framework repositories become operations on an in-memory
  `Tables.Catalogue`: a sequence of category rows (id, path, parent id), a sequence of leaf
  rows (an item type or a storage: a name and a category id), and the next id.
  - `CategoryRepository`: `CheckExistsAsync`, `GetAllByParentAsync` (direct and recursive),
    `AddAsync`, `DeleteAsync`.
  - `StorageCategoryRepository`: the storage repository's `GetAllByParentAsync`, which needs a
    parent.
  - `LeafRepository`: the item-type repository.
  - `StorageRepository`: the storage repository, which ignores categories.
- **Services.** `ItemTypeCategoryService` holds `GetTreeAsync`, the walk with explicit stacks
  that builds the category tree, plus create and delete. `StorageCategoryService`,
  `ItemTypeService` and `StorageService` create and delete.
- **Controllers.** `ItemTypeCategoryController` and `StorageCategoryController` copy the
  service's tree into response objects and map service statuses to HTTP results.

The code's form is kept:

- The tree nodes and response nodes are classes updated in place.
- The two tree walks are `while` loops over stacks.
- The services and repositories are methods that change the `Catalogue`.
- Everything the source computes without changing state is a function.

What is proved:

- Each service status occurs exactly in its own case.
- The table after each operation is stated in full.
- The table invariants are kept: unique paths, unique ids, and parents that exist and come
  first.
- The recursive `GetAllByParentAsync` lists exactly the descendants, each path once. Its pre-order (each child directly followed by its own listing) holds by the definition of `CategoryRepository.EnumerateFrom`, not by a separate lemma.
- The tree walk terminates and builds a node for every category row, each linked to its parent's
  node, with that category's leaves.
- The controller's copy reproduces every node reachable from the root.

## Model

| member | source | states |
|---|---|---|
| Category.LastIndexOf | src/Warehome/Warehome.Domain/Entities/Category.cs:13 | the index found is -1 or holds the searched character |
| Category.LastIndexOfIsLast | src/Warehome/Warehome.Domain/Entities/Category.cs:13 | no occurrence of the character lies after the index found, so it is the last one |
| Category.NameOf | src/Warehome/Warehome.Domain/Entities/Category.cs:11-14 | the part of the path after its last '/'; what that means (no '/', a suffix, the whole path when there is no '/') is stated by `Category.NameOfIsLastSegment` |
| Category.NameOfIsLastSegment | src/Warehome/Warehome.Domain/Entities/Category.cs:11-14 | the name holds no '/'; it is the suffix of the path; without a '/' it is the whole path, otherwise a '/' comes right before it |
| Category.FromNameAndParent | src/Warehome/Warehome.Domain/Entities/Category.cs:23-26 | the path of a new child category; that `Name` reads the name back from it is stated by `Category.NameOfFromNameAndParent` |
| Category.NewCategoryPath | src/Warehome/Warehome.Application/Services/Implementations/ItemTypeCategoryService.cs:57-70 | a top-level category's path is its name; otherwise it is built by `FromNameAndParent`; a name without '/' is read back as the new category's `Name` |
| Category.NameOfFromNameAndParent | src/Warehome/Warehome.Domain/Entities/Category.cs:7-26 | round trip: for a name without '/', `Name` of the path built from name and parent is that name |
| Category.CategoryEntity.constructor | src/Warehome/Warehome.Domain/Entities/Category.cs:5 | the path is set once and the name cache starts empty |
| Category.CategoryEntity.Name | src/Warehome/Warehome.Domain/Entities/Category.cs:7-19 | returns the last segment of the path, filling the cache with exactly that value |
| Category.NameIsStable | src/Warehome/Warehome.Domain/Entities/Category.cs:9-18 | two reads of `Name`, with the cache cold and then warm, give the same last segment |
| CategoryRepository.CheckExists | src/Warehome/Warehome.Infrastructure/Data/Repositories/EfItemTypeCategoryRepository.cs:13-18 | true exactly when some row has the path |
| CategoryRepository.ChildrenOf | src/Warehome/Warehome.Infrastructure/Data/Repositories/EfItemTypeCategoryRepository.cs:36-38 | exactly the rows whose parent id is the one given, duplicate-free when the table is |
| CategoryRepository.Enumerate | src/Warehome/Warehome.Infrastructure/Data/Repositories/EfItemTypeCategoryRepository.cs:40-51 | the listing under a parent's id: at least one path per direct child, exactly one each without recursion; it is pre-order by construction, each child's path directly followed by its own listing |
| CategoryRepository.EnumerateFrom | src/Warehome/Warehome.Infrastructure/Data/Repositories/EfItemTypeCategoryRepository.cs:42-51 | the `await foreach` over the children: at least one path per child, exactly one each without recursion, each child before its own nested listing (by construction) |
| CategoryRepository.GetAllByParent | src/Warehome/Warehome.Infrastructure/Data/Repositories/EfItemTypeCategoryRepository.cs:20-52 | `GetAllByParentAsync`: nothing for a parent path with no row (the `yield break`); the rest of its meaning is stated by `GetAllByParentDirect` and `GetAllByParentRecursive` |
| CategoryRepository.GetAllByParentDirect | src/Warehome/Warehome.Infrastructure/Data/Repositories/EfItemTypeCategoryRepository.cs:20-52 | non-recursive listing: the paths of the top-level rows for no parent, nothing for a missing parent, the paths of the parent row's children otherwise |
| CategoryRepository.EnumerateFromDirect | src/Warehome/Warehome.Infrastructure/Data/Repositories/EfItemTypeCategoryRepository.cs:40-51 | without recursion the `foreach` yields just the children's paths, in table order |
| CategoryRepository.EnumerateSound | src/Warehome/Warehome.Infrastructure/Data/Repositories/EfItemTypeCategoryRepository.cs:40-51 | every path the recursive listing yields belongs to a row descending from the parent |
| CategoryRepository.EnumerateComplete | src/Warehome/Warehome.Infrastructure/Data/Repositories/EfItemTypeCategoryRepository.cs:40-51 | every row descending from the parent is yielded by the recursive listing |
| CategoryRepository.SiblingSubtreesDisjoint | src/Warehome/Warehome.Infrastructure/Data/Repositories/EfStorageCategoryRepository.cs:30-45 | no row lies under two different children of the same parent, so the nested walks of two siblings never meet |
| CategoryRepository.EnumerateFromNoDup | src/Warehome/Warehome.Infrastructure/Data/Repositories/EfStorageCategoryRepository.cs:34-45 | the pre-order walk over the children yields each descendant's path once: a child's path is not in its own subtree's walk, and no two children's walks share a path |
| CategoryRepository.EnumerateNoDup | src/Warehome/Warehome.Infrastructure/Data/Repositories/EfItemTypeCategoryRepository.cs:40-51 | the recursive listing under any parent yields no path twice |
| CategoryRepository.DescendsFromTop | src/Warehome/Warehome.Infrastructure/Data/Repositories/EfItemTypeCategoryRepository.cs:40-51 | every row descends from the top level, so the recursive listing from the root reaches all rows |
| CategoryRepository.GetAllByParentRecursive | src/Warehome/Warehome.Infrastructure/Data/Repositories/EfItemTypeCategoryRepository.cs:20-52 | recursive listing: only existing paths; from the root, every row; nothing for a missing parent; under a parent, a row's path is listed exactly when the row descends from it; no path is listed twice |
| CategoryRepository.WithoutPath | src/Warehome/Warehome.Infrastructure/Data/Repositories/EfItemTypeCategoryRepository.cs:70 | keeps exactly the rows with another path |
| CategoryRepository.AppendKeepsValid | src/Warehome/Warehome.Infrastructure/Data/Repositories/EfItemTypeCategoryRepository.cs:63-65 | a row with the next id, a free path and an existing parent keeps the unique indexes and the foreign keys of both tables |
| CategoryRepository.Add | src/Warehome/Warehome.Infrastructure/Data/Repositories/EfItemTypeCategoryRepository.cs:54-66 | succeeds exactly when the parent exists and the path is free (otherwise `FirstAsync` or the unique index throws); on success one row is appended, with the next id and the parent's id, and the id counter moves one on; on failure nothing changes |
| CategoryRepository.Delete | src/Warehome/Warehome.Infrastructure/Data/Repositories/EfItemTypeCategoryRepository.cs:68-71 | succeeds exactly when no child row or leaf still points at the path (the restrict foreign keys); on success every row with the path is gone |
| StorageCategoryRepository.GetAllByParent | src/Warehome/Warehome.Infrastructure/Data/Repositories/EfStorageCategoryRepository.cs:20-46 | empty for a missing parent, else the same listing as the item-type repository under that parent |
| StorageCategoryRepository.TryAdd | src/Warehome/Warehome.Application/Services/Implementations/StorageCategoryService.cs:36 | adds exactly when the parent exists and the path is free, reporting whether it did; otherwise the table is unchanged |
| LeafRepository.InCategoryById | src/Warehome/Warehome.Infrastructure/Data/Repositories/EfItemTypeRepository.cs:18-20 | a leaf matches a missing category never, otherwise exactly when its category id is that category's id (or none, at the top level) |
| LeafRepository.RowsIn | src/Warehome/Warehome.Infrastructure/Data/Repositories/EfItemTypeRepository.cs:28-31 | exactly the leaf rows in the category |
| LeafRepository.ToDomain | src/Warehome/Warehome.Infrastructure/Data/Repositories/EfItemTypeRepository.cs:32 | one domain value per row, with the row's name and the category asked for |
| LeafRepository.GetAllByCategory | src/Warehome/Warehome.Infrastructure/Data/Repositories/EfItemTypeRepository.cs:26-34 | every result carries the category asked for, and a name is listed exactly when a row with that name is in the category |
| LeafRepository.Get | src/Warehome/Warehome.Infrastructure/Data/Repositories/EfItemTypeRepository.cs:14-24 | found exactly when a row with that name is in the category, and then it is that name in that category |
| LeafRepository.WithoutName | src/Warehome/Warehome.Infrastructure/Data/Repositories/EfItemTypeRepository.cs:52 | keeps exactly the rows with another name |
| LeafRepository.Add | src/Warehome/Warehome.Infrastructure/Data/Repositories/EfItemTypeRepository.cs:36-48 | succeeds exactly when the category exists and the name is free in it; on success one row is appended and `Get` then finds it; otherwise nothing changes |
| LeafRepository.DeleteByName | src/Warehome/Warehome.Infrastructure/Data/Repositories/EfItemTypeRepository.cs:50-53 | removes every row with the name, in every category, and nothing else |
| LeafRepository.NamesOf | src/Warehome/Warehome.Application/Services/Implementations/ItemTypeCategoryService.cs:34 | the names, one per leaf, in order |
| LeafRepository.EmptyCategoryIsUnreferenced | src/Warehome/Warehome.Application/Services/Implementations/ItemTypeCategoryService.cs:92-105 | a category with no child category and no leaf is referenced by no row, so its delete cannot hit a foreign key |
| StorageRepository.GetByPath | src/Warehome/Warehome.Infrastructure/Data/Repositories/EfStorageRepository.cs:12-17 | found exactly when some storage has that name, returned without a category |
| StorageRepository.GetAll | src/Warehome/Warehome.Infrastructure/Data/Repositories/EfStorageRepository.cs:19-22 | one storage per row, in order, by name and without a category |
| StorageRepository.TryAdd | src/Warehome/Warehome.Infrastructure/Data/Repositories/EfStorageRepository.cs:24-34 | adds an uncategorised storage exactly when the name is free anywhere, reporting whether it did |
| StorageRepository.Delete | src/Warehome/Warehome.Infrastructure/Data/Repositories/EfStorageRepository.cs:36-40 | removes every storage with the name and reports whether there was one |
| ItemTypeCategoryService.CreateItemTypeCategory | src/Warehome/Warehome.Application/Services/Implementations/ItemTypeCategoryService.cs:52-81 | `ParentNotFound` exactly when the parent is missing, `AlreadyExists` exactly when the new path is taken, else `Success` with exactly the new row appended and the id counter one further on; the leaves never change |
| ItemTypeCategoryService.DeleteItemTypeCategory | src/Warehome/Warehome.Application/Services/Implementations/ItemTypeCategoryService.cs:83-107 | `NotFound` exactly when the path is missing, `NotEmpty` exactly when it has a child or an item type, else `Success` with the path's row removed |
| ItemTypeCategoryService.ChildPaths | src/Warehome/Warehome.Application/Services/Implementations/ItemTypeCategoryService.cs:36-38 | the listing for a node's category is the paths of that category's child rows |
| ItemTypeCategoryService.ReadCategory | src/Warehome/Warehome.Application/Services/Implementations/ItemTypeCategoryService.cs:32-38 | the two queries of one turn: the category's item names and the paths of its child rows |
| ItemTypeCategoryService.NewChildren | src/Warehome/Warehome.Application/Services/Implementations/ItemTypeCategoryService.cs:39-44 | one fresh node per child category, named with that category's `Name`, all distinct |
| ItemTypeCategoryService.FillNode | src/Warehome/Warehome.Application/Services/Implementations/ItemTypeCategoryService.cs:34-46 | the popped node gets exactly the given item names and one fresh child per child row, named after that row's last path segment, as its children |
| ItemTypeCategoryService.Visit | src/Warehome/Warehome.Application/Services/Implementations/ItemTypeCategoryService.cs:24-46 | the popped node's children are one fresh node per direct sub-category row, pushed with those rows' own paths; the popped node and every node finished before it hold their category's leaves and children |
| ItemTypeCategoryService.NamedStep | src/Warehome/Warehome.Application/Services/Implementations/ItemTypeCategoryService.cs:43 | every node, old or new, is named after its category row |
| ItemTypeCategoryService.DoneStep | src/Warehome/Warehome.Application/Services/Implementations/ItemTypeCategoryService.cs:40-46 | after a turn, the popped node and every earlier finished node hold their category's leaves and children, linked in the tree |
| ItemTypeCategoryService.Expand | src/Warehome/Warehome.Application/Services/Implementations/ItemTypeCategoryService.cs:24-46 | one turn of the loop keeps the walk invariant, and either pushes a row never pushed before or shrinks the stack |
| ItemTypeCategoryService.CompleteTree | src/Warehome/Warehome.Application/Services/Implementations/ItemTypeCategoryService.cs:22-49 | once every node has been visited, the nodes form a tree and each holds its category's leaves and children |
| ItemTypeCategoryService.GetTree | src/Warehome/Warehome.Application/Services/Implementations/ItemTypeCategoryService.cs:16-50 | the walk ends; it returns a tree of fresh nodes whose root stands for no category; every category row has a node, and every node is named with its row's `Name`, holding its item names and its child categories' nodes in table order |
| ItemTypeCategoryService.WalkFinished | src/Warehome/Warehome.Application/Services/Implementations/ItemTypeCategoryService.cs:22-49 | when the stack runs empty, the nodes form a tree, each row has its node, and each node holds its category's name, leaves and children |
| TreeWalk.WalkStart | src/Warehome/Warehome.Application/Services/Implementations/ItemTypeCategoryService.cs:18-20 | the walk invariant holds with just the root on the stack and every row still to be pushed |
| TreeWalk.WalkStep | src/Warehome/Warehome.Application/Services/Implementations/ItemTypeCategoryService.cs:24-46 | popping a node and pushing its children keeps the walk invariant, and the set of rows still to push shrinks whenever there were children |
| TreeWalk.WalkTop | src/Warehome/Warehome.Application/Services/Implementations/ItemTypeCategoryService.cs:24-30 | the popped node is unvisited, and its path is its own row's path (none for the root) |
| TreeWalk.WalkDone | src/Warehome/Warehome.Application/Services/Implementations/ItemTypeCategoryService.cs:22 | with the stack empty, every node has been visited and every row has its node |
| CategoryTree.TreeResult.constructor | src/Warehome/Warehome.Application/Services/Implementations/ItemTypeCategoryService.cs:43 | a new node has the given name and no children or leaves yet |
| CategoryTree.TreeResponse.constructor | src/Warehome/Warehome.Web/Controllers/Api/ItemTypeCategoryController.cs:21 | a new response node, as `new GetItemTypeCategoryTreeResponse()` makes the root here and each child at line 38, is empty: no name, no children, no leaves, both counts zero |
| CategoryTree.TreeResponse.Fill | src/Warehome/Warehome.Web/Controllers/Api/ItemTypeCategoryController.cs:31-42 | a response node takes the name, the leaf names with their count, and the children with their count |
| CategoryTree.NewResponses | src/Warehome/Warehome.Web/Controllers/Api/ItemTypeCategoryController.cs:35-41 | one fresh, distinct response node per application child, paired with it |
| CategoryTree.CopyStep | src/Warehome/Warehome.Web/Controllers/Api/ItemTypeCategoryController.cs:27-42 | one turn of the copy loop keeps the pairing of the two stacks and of every visited node |
| CategoryTree.CopyTurn | src/Warehome/Warehome.Web/Controllers/Api/ItemTypeCategoryController.cs:29-42 | one turn of the copy loop copies the popped node into its response node, pushes its children with fresh response nodes, keeps every earlier pairing and copy, and visits one more node |
| CategoryTree.CopyTree | src/Warehome/Warehome.Web/Controllers/Api/ItemTypeCategoryController.cs:21-43 | the copy loop ends; every application node reached from the root gets its own fresh response node with the same name, leaves, counts and children in order; `StorageCategoryController.GetTree` (same lines of its own file) runs the identical loop with storage names as the leaves |
| ItemTypeCategoryController.GetTree | src/Warehome/Warehome.Web/Controllers/Api/ItemTypeCategoryController.cs:17-46 | the response root copies the service's root; every response node copies a node that holds its category's name, item names and children |
| ItemTypeCategoryController.CopyBuilt | src/Warehome/Warehome.Web/Controllers/Api/ItemTypeCategoryController.cs:27-43 | the copy keeps what each application node was built from |
| ActionResults.ActionResult.StatusCode | src/Warehome/Warehome.Web/Controllers/Api/ItemTypeCategoryController.cs:58-64 | `Ok`, `Conflict` and `NotFound` answer 200, 409 and 404, each code for exactly one kind of result |
| ItemTypeCategoryController.PostResult | src/Warehome/Warehome.Web/Controllers/Api/ItemTypeCategoryController.cs:58-64 | 200 exactly for `Success`, 409 exactly for `AlreadyExists`, 404 exactly for `ParentNotFound` |
| ItemTypeCategoryController.DeleteResult | src/Warehome/Warehome.Web/Controllers/Api/ItemTypeCategoryController.cs:76-82 | 200 exactly for `Success`, 409 exactly for `NotEmpty`, 404 exactly for `NotFound` |
| ItemTypeCategoryController.Post | src/Warehome/Warehome.Web/Controllers/Api/ItemTypeCategoryController.cs:48-65 | 404 exactly when the parent is missing, 409 exactly when the path is taken, and 200 with the row added |
| ItemTypeCategoryController.Delete | src/Warehome/Warehome.Web/Controllers/Api/ItemTypeCategoryController.cs:67-83 | 404 exactly when the path is missing, 409 exactly when the category is not empty, and 200 with its row removed |
| StorageCategoryService.CreateStorageCategory | src/Warehome/Warehome.Application/Services/Implementations/StorageCategoryService.cs:16-39 | `ParentNotFound` exactly when the parent is missing, `AlreadyExists` exactly when the new path is taken, else `Success` with exactly the new row appended |
| StorageCategoryService.DeleteStorageCategory | src/Warehome/Warehome.Application/Services/Implementations/StorageCategoryService.cs:41-60 | as written: never `NotFound`; `NotEmpty` exactly when there is a child or a storage; otherwise `Success`, and a path that was never there changes nothing |
| StorageCategoryService.DeleteAbsentIsSuccess | src/Warehome/Warehome.Application/Services/Implementations/StorageCategoryService.cs:41-60 | deleting the absent path "test" from empty tables reports `Success` |
| StorageCategoryService.DeleteStorageCategoryChecked | src/Warehome/Warehome.Application/Services/Implementations/StorageCategoryService.cs:41-60 | with the existence check: `NotFound` exactly when the path is missing, `NotEmpty` exactly when it exists and is not empty, else `Success` with its row removed |
| StorageCategoryController.PostResult | src/Warehome/Warehome.Web/Controllers/Api/StorageCategoryController.cs:58-64 | 200 exactly for `Success`, 409 exactly for `AlreadyExists`, 404 exactly for `ParentNotFound` |
| StorageCategoryController.DeleteResult | src/Warehome/Warehome.Web/Controllers/Api/StorageCategoryController.cs:76-82 | 200 exactly for `Success`, 409 exactly for `NotEmpty`, 404 exactly for `NotFound` |
| StorageCategoryController.Post | src/Warehome/Warehome.Web/Controllers/Api/StorageCategoryController.cs:48-65 | 404 exactly when the parent is missing, 409 exactly when the path is taken, and 200 with the row added |
| StorageCategoryController.Delete | src/Warehome/Warehome.Web/Controllers/Api/StorageCategoryController.cs:67-83 | 404 exactly when the path is missing, 409 exactly when the category is not empty, and 200 with its row removed |
| ItemTypeService.CreateItemType | src/Warehome/Warehome.Application/Services/Implementations/ItemTypeService.cs:16-37 | `CategoryNotFound` exactly when a given category is missing, `AlreadyExists` exactly when the name is taken in that category, else `Success` with exactly one row added, which `GetAsync` then finds |
| ItemTypeService.DeleteItemType | src/Warehome/Warehome.Application/Services/Implementations/ItemTypeService.cs:39-58 | `NotFound` exactly when the category is missing or the name is not in it (nothing deleted); otherwise `Success`, and the name is gone from every category |
| StorageService.CreateStorage | src/Warehome/Warehome.Application/Services/Implementations/StorageService.cs:16-37 | `CategoryNotFound` exactly when a given category is missing, `AlreadyExists` exactly when the name is taken in that category, else `Success` with exactly one storage added |
| StorageService.DeleteStorage | src/Warehome/Warehome.Application/Services/Implementations/StorageService.cs:39-58 | never `NotEmpty`; `NotFound` exactly when the category is missing or the name is not in it; otherwise `Success`, with every storage of that name removed |
| GetTreeAsWritten.CategoryOfPath | src/Warehome/Warehome.Application/Services/Implementations/ItemTypeCategoryService.cs:26-30 | the loop asks with no category exactly for the empty path |
| GetTreeAsWritten.ChildPath | src/Warehome/Warehome.Application/Services/Implementations/ItemTypeCategoryService.cs:45 | the path pushed for a child has the child's own `Name` as its `Name` |
| GetTreeAsWritten.Step | src/Warehome/Warehome.Application/Services/Implementations/ItemTypeCategoryService.cs:22-47 | one turn of the loop: the stack below the popped path is kept, and one path is pushed per listed child, carrying that child's `Name` |
| GetTreeAsWritten.Run | src/Warehome/Warehome.Application/Services/Implementations/ItemTypeCategoryService.cs:22-47 | `k` turns of the loop: an empty stack takes no turn (the `while` condition), and a run of at least one turn that is still going started from a non-empty stack |
| GetTreeAsWritten.Pushes | src/Warehome/Warehome.Application/Services/Implementations/ItemTypeCategoryService.cs:41-46 | one pushed path per listed child, rebuilt from the current path and the child's `Name` |
| GetTreeAsWritten.PushesAreChildPaths | src/Warehome/Warehome.Application/Services/Implementations/ItemTypeCategoryService.cs:45 | when every path is its parent's path plus a non-empty segment, the rebuilt paths are exactly the children's own paths |
| GetTreeAsWritten.PushesGrow | src/Warehome/Warehome.Application/Services/Implementations/ItemTypeCategoryService.cs:45 | below the root every pushed path is the popped path, a '/' and a segment, so strictly longer: only the root's empty path can come back |
| GetTreeAsWritten.EmptyNameTable | src/Warehome/Warehome.Application/Services/Implementations/ItemTypeCategoryService.cs:52-81 | creating the top-level category "a/" on new tables succeeds and stores the path "a/" |
| GetTreeAsWritten.EmptyPathTable | src/Warehome/Warehome.Application/Services/Implementations/ItemTypeCategoryService.cs:52-81 | creating the top-level category "" on new tables succeeds and stores the empty path |
| GetTreeAsWritten.EmptyNameStep | src/Warehome/Warehome.Application/Services/Implementations/ItemTypeCategoryService.cs:24-46 | on a table holding one top-level category whose `Name` is empty (path "" or ending in '/'), one turn of the loop from the stack `[""]` gives back `[""]` |
| GetTreeAsWritten.EmptyNameLoopsForever | src/Warehome/Warehome.Application/Services/Implementations/ItemTypeCategoryService.cs:22-47 | on such a table the path stack is `[""]` after any number of turns, so the loop never ends |
| GetTreeAsWritten.NestedEmptyNameTable | src/Warehome/Warehome.Application/Services/Implementations/ItemTypeCategoryService.cs:52-81 | creating "a" and then "b/" under it succeeds and stores the nested path "a/b/" |
| GetTreeAsWritten.NestedEmptyNameEnds | src/Warehome/Warehome.Application/Services/Implementations/ItemTypeCategoryService.cs:22-47 | on that table the loop pushes "a", then "a/" for "a/b/", lists nothing under "a/" and has an empty stack after three turns |

## Left out

- async/await, Entity Framework Core and SQLite are not modelled. A `Catalogue` object stands for one hierarchy's tables: item-type categories with item types, or storage categories with storages. Reads see the tables in insertion order.
- Exceptions the database would raise are modelled as a false `ok` result with the tables unchanged. These are `FirstAsync` on a missing parent, a unique-index violation, and a restrict foreign key on delete. Every service is proved never to reach one.
- Some repository operations are declared on interfaces but implemented nowhere in these sources:
  - `ICategoryRepository.TryAddAsync` (used by the storage category service) is modelled as `AddAsync` behind its own check.
  - `IStorageRepository.GetAsync`, `AddAsync` and `GetAllByCategoryAsync` are modelled with the item-type repository's semantics (`LeafRepository`).
- `StorageCategoryController.GetTree` calls a `GetTreeAsync` that `IStorageCategoryService` does not declare, so its tree source is not part of this model. The copy loop is modelled as `CategoryTree.CopyTree` over any well-formed tree.
- `StorageController`, `ItemTypeController`, the web pages and the JavaScript client are not part of this model.
- Commands and request DTOs become plain arguments. The response bodies (`CreateItemTypeCategoryResponse` and the like) are not part of this model: an `ActionResult` carries the service status in their place.
- Strings are never null, and no name is validated, exactly as in the services.
- One tree shape (`TreeResult`/`TreeResponse`) serves both hierarchies. `leafNames` stands for `ItemNames` or `StorageNames`.
- ItemTypeCategoryService.GetTree walks each child under its stored path, not under the path that line 45 of `ItemTypeCategoryService.cs` rebuilds from the parent's path and the child's `Name` (modelled in `GetTreeAsWritten`). The two agree only when every stored path is its parent's path, a '/', and a non-empty name without '/' (`GetTreeAsWritten.PushesAreChildPaths`). Names are not validated, so they differ on any name that holds a '/' or is empty. The source loops forever exactly when a top-level category's `Name` is empty, its path being "" or ending in '/' (see Findings): the root pushes "" and walks itself again (`GetTreeAsWritten.EmptyNameLoopsForever`, proved for a table holding just that row). Below the root every pushed path is longer than the popped one (`GetTreeAsWritten.PushesGrow`), so a nested empty name only costs that category its contents: "b/" created under "a" is pushed as "a/", which names no row, and is shown as an empty node named "" (`GetTreeAsWritten.NestedEmptyNameEnds`), where the model shows its own items and children. A top-level category created as "x/y" is pushed as "y": the source then queries items and sub-categories of "y", finds none (or those of an unrelated category whose path is "y"), and shows "x/y" as an empty node, where the model shows its own items and children.
- ItemTypeCategoryService.Visit pushes the stored paths of the popped node's children (`childPaths == PresentPaths(kidRows)`), not the rebuilt paths of line 45, for the reason given for `GetTree` above.
- ItemTypeCategoryService.Expand pushes the same stored paths as `Visit`, not the rebuilt paths of line 45, for the reason given for `GetTree` above.
- CategoryTree.TreeResponse.constructor starts `name`, `children` and `leafNames` as "" and [] where the C# DTO (GetItemTypeCategoryTreeResponse.cs:5-8) leaves them null. No caller can see the difference: the copy loop fills every node before the response is returned.
- ItemTypeCategoryController.GetTree states that every response node copies a node built from the table. It does not restate that every category row appears in the response: that coverage is stated on `ItemTypeCategoryService.GetTree`.
- StorageCategoryController.Delete calls the delete with the existence check (`DeleteStorageCategoryChecked`, see Findings), so its 404 case is the one the service's tests expect.
- GetTreeAsWritten.EmptyNameLoopsForever shows non-termination as "after every number `k` of turns the stack is still `[""]`". Divergence is not stated as a single property.

## Findings

| source | as written | input that shows it | evidently intended | confidence | as-written member | corrected member |
|---|---|---|---|---|---|---|
| src/Warehome/Warehome.Application/Services/Implementations/ItemTypeCategoryService.cs:45 | the path pushed for a child is rebuilt as the parent's path plus the child's `Name`, which is empty when the stored path ends in '/' or is empty; at the top level that empty path is the root's own | create the top-level category "a/" or "" (accepted, since names are not checked), then get the tree: the root lists it, pushes "" again, and the loop never ends | the walk ends on every table the service can store. The service's own test (ItemTypeCategoryServiceTests.cs:289-323) mocks child paths without their parent's prefix and expects the rebuilt path "c1/c1c2" to be queried, so it pins line 45 as written; the fix taken here walks each child under its stored path, and rejecting names that contain '/' would also do | not executed | GetTreeAsWritten.EmptyNameLoopsForever | ItemTypeCategoryService.GetTree |
| src/Warehome/Warehome.Application/Services/Implementations/StorageCategoryService.cs:41-60 | no existence check: a path with no category passes both emptiness checks and the delete reports `Success` | delete "test" from empty tables: `Success` (the service test for a missing path expects `NotFound`, as the item-type service returns) | return `NotFound` for a missing path before the emptiness checks | not executed | StorageCategoryService.DeleteAbsentIsSuccess | StorageCategoryService.DeleteStorageCategoryChecked |
