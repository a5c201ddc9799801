/**
 * The domain entity `Category<T>`: a category is identified by its slash-joined `Path`
 * ("tools/hand/hammers"); its `Name` is the last segment of that path.
 */
module Category {
  import opened Wrappers

  /** `string.LastIndexOf(c)`: the position of the last `c` in `s`, or -1 when `s` has none. */
  function LastIndexOf(s: string, c: char): (i: int)
    ensures -1 <= i < |s|
    ensures i >= 0 ==> s[i] == c
  {
    if s == [] then -1
    else if s[|s| - 1] == c then |s| - 1
    else LastIndexOf(s[..|s| - 1], c)
  }

  /** No `c` follows the position `LastIndexOf` finds; in particular -1 means `s` has no `c`. */
  lemma {:induction false} LastIndexOfIsLast(s: string, c: char)
    ensures forall j :: LastIndexOf(s, c) < j < |s| ==> s[j] != c
  {
    if s != [] && s[|s| - 1] != c {
      LastIndexOfIsLast(s[..|s| - 1], c);
    }
  }

  /** The value the `Name` getter computes from a path: the part after the last '/', or the whole path. */
  function NameOf(path: string): (name: string)
    ensures |name| <= |path|
  {
    var k := LastIndexOf(path, '/');
    if k >= 0 then path[k + 1..] else path
  }

  /**
   * The name is the last segment of the path: a slash-free suffix of it that is the whole path
   * when the path has no '/', and otherwise follows a '/'.
   */
  lemma NameOfIsLastSegment(path: string)
    ensures '/' !in NameOf(path)
    ensures path[|path| - |NameOf(path)|..] == NameOf(path)
    ensures '/' !in path ==> NameOf(path) == path
    ensures '/' in path ==> |NameOf(path)| < |path| && path[|path| - |NameOf(path)| - 1] == '/'
  {
    LastIndexOfIsLast(path, '/');
  }

  /** `Category<T>.FromNameAndParent`: the path of a child named `name` under `parentPath`. */
  function FromNameAndParent(name: string, parentPath: string): (path: string)
    ensures |path| == |parentPath| + 1 + |name|
    ensures path[..|parentPath|] == parentPath && path[|parentPath|] == '/' && path[|parentPath| + 1..] == name
  {
    parentPath + "/" + name
  }

  /**
   * The path a create command names: `parentPath/name` under a parent, `name` alone at the
   * top level. Either way a slash-free name is read back as the category's `Name`.
   */
  function NewCategoryPath(name: string, parentPath: Option<string>): (path: string)
    ensures parentPath.None? ==> path == name
    ensures parentPath.Some? ==> path == FromNameAndParent(name, parentPath.value)
    ensures '/' !in name ==> NameOf(path) == name
  {
    match parentPath
    case None => name
    case Some(p) => NameOfFromNameAndParent(name, p); FromNameAndParent(name, p)
  }

  /** Round trip: the name of the path built from a slash-free name and a parent is that name. */
  lemma NameOfFromNameAndParent(name: string, parentPath: string)
    ensures '/' !in name ==> NameOf(FromNameAndParent(name, parentPath)) == name
  {
    if '/' !in name {
      var path := FromNameAndParent(name, parentPath);
      var n := NameOf(path);
      NameOfIsLastSegment(path);
      assert path[|parentPath|] == '/';
      assert |n| == |name|;
    }
  }

  /**
   * A `Category<T>` object. `Path` is init-only, so it is a constant here; `Name` is a getter
   * that computes the last segment on first use and memoises it in the private `_name` field.
   */
  class CategoryEntity {
    const Path: string
    var cachedName: Option<string>

    /** The cache, once filled, holds the name of `Path`. */
    ghost predicate Valid()
      reads this
    {
      cachedName.Some? ==> cachedName.value == NameOf(Path)
    }

    constructor (path: string)
      ensures Path == path && cachedName == None
      ensures Valid()
    {
      Path := path;
      cachedName := None;
    }

    /** The `Name` getter: every read returns the last segment of `Path`, and the cache stays sound. */
    method Name() returns (name: string)
      requires Valid()
      modifies this`cachedName
      ensures Valid() && cachedName == Some(name)
      ensures name == NameOf(Path)
    {
      if cachedName == None {
        var lastIndex := LastIndexOf(Path, '/');
        cachedName := Some(if lastIndex >= 0 then Path[lastIndex + 1..] else Path);
      }
      name := cachedName.value;
    }
  }

  /** Reading `Name` twice yields the same value, the second read being served from the cache. */
  method NameIsStable(c: CategoryEntity) returns (first: string, second: string)
    requires c.Valid()
    modifies c`cachedName
    ensures first == second == NameOf(c.Path)
  {
    first := c.Name();
    second := c.Name();
  }
}
