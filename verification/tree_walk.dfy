/**
 * The bookkeeping behind `GetTreeAsync`'s stack walk over a category table, apart from the
 * heap: which tree node stands for which category row, which rows have been pushed, and which
 * categories have been expanded. It shows that the walk visits every category exactly once.
 */
module TreeWalk {
  import opened Wrappers
  import opened Seqs
  import opened Tables
  import opened CategoryRepository
  import opened CategoryTree

  /** The path a node is walked with: none for the root, the row's path otherwise. */
  function PathOpt(row: Option<CategoryRow>): (p: Option<string>)
    ensures p.Some? <==> row.Some?
    ensures row.Some? ==> p.value == row.value.path
  {
    match row
    case None => None
    case Some(r) => Some(r.path)
  }

  /** The `ParentId` the children of a node carry: null for the root, the row's id otherwise. */
  function IdOpt(row: Option<CategoryRow>): (id: Option<nat>)
    ensures id.Some? <==> row.Some?
    ensures row.Some? ==> id.value == row.value.id
  {
    match row
    case None => None
    case Some(r) => Some(r.id)
  }

  /** The elements of a sequence, as a set. */
  function Elements<T>(s: seq<T>): set<T>
  {
    set x | x in s
  }

  /** `s`, each element wrapped as present. */
  function Somes<T>(s: seq<T>): (r: seq<Option<T>>)
    ensures |r| == |s|
    ensures forall i :: 0 <= i < |s| ==> r[i] == Some(s[i])
  {
    seq(|s|, i requires 0 <= i < |s| => Some(s[i]))
  }

  /** The paths of `rows`, each as a present path. */
  function PresentPaths(rows: seq<CategoryRow>): (r: seq<Option<string>>)
    ensures |r| == |rows|
    ensures forall i :: 0 <= i < |rows| ==> r[i] == Some(rows[i].path)
  {
    Somes(PathsOf(rows))
  }

  /** `n` repeated `count` times. */
  function Repeat<T>(n: T, count: nat): (r: seq<T>)
    ensures |r| == count
    ensures forall i :: 0 <= i < count ==> r[i] == n
  {
    seq(count, _ => n)
  }

  /**
   * The two stacks between two turns of the loop: each waiting node is unvisited, carries its
   * row's path, and its row has not been expanded yet; no node waits twice.
   */
  ghost predicate WalkStacks(nodes: set<TreeResult>, rowOf: map<TreeResult, Option<CategoryRow>>,
                             stack: seq<TreeResult>, paths: seq<Option<string>>,
                             visited: set<TreeResult>, expanded: set<Option<nat>>)
  {
    && |stack| == |paths|
    && (forall i :: 0 <= i < |stack| ==>
          stack[i] in nodes && stack[i] !in visited && stack[i] in rowOf
          && paths[i] == PathOpt(rowOf[stack[i]]) && IdOpt(rowOf[stack[i]]) !in expanded)
    && (forall i, j :: 0 <= i < j < |stack| ==> stack[i] != stack[j])
  }

  /**
   * The nodes between two turns: `rowOf` gives each node its row (none for the root only),
   * `parentOf` gives each other node a visited parent, every node is visited or waiting, and
   * every visited node's row is expanded.
   */
  ghost predicate WalkNodes(root: TreeResult, nodes: set<TreeResult>, parentOf: map<TreeResult, TreeResult>,
                            rowOf: map<TreeResult, Option<CategoryRow>>, stack: seq<TreeResult>,
                            visited: set<TreeResult>, expanded: set<Option<nat>>)
  {
    && root in nodes && root in rowOf && rowOf[root] == None
    && visited <= nodes
    && NodesCovered(nodes, rowOf, stack, visited)
    && NodesParented(root, nodes, parentOf, rowOf, visited)
    && VisitedExpanded(rowOf, visited, expanded)
  }

  /** Every node has a row and is visited or waiting on the stack. */
  ghost predicate NodesCovered(nodes: set<TreeResult>, rowOf: map<TreeResult, Option<CategoryRow>>,
                               stack: seq<TreeResult>, visited: set<TreeResult>)
  {
    forall n :: n in nodes ==> n in rowOf && (n in visited || n in stack)
  }

  /** Every node but the root has a category row and a visited parent. */
  ghost predicate NodesParented(root: TreeResult, nodes: set<TreeResult>, parentOf: map<TreeResult, TreeResult>,
                                rowOf: map<TreeResult, Option<CategoryRow>>, visited: set<TreeResult>)
  {
    && (forall n :: n in nodes && n != root ==> n in rowOf && rowOf[n].Some?)
    && (forall n {:trigger parentOf[n]} {:trigger n in parentOf} :: n in nodes && n != root ==> n in parentOf && parentOf[n] in visited)
  }

  /** Every visited node's row, or the top level for the root, has been expanded. */
  ghost predicate VisitedExpanded(rowOf: map<TreeResult, Option<CategoryRow>>, visited: set<TreeResult>,
                                  expanded: set<Option<nat>>)
  {
    forall n :: n in visited ==> n in rowOf && IdOpt(rowOf[n]) in expanded
  }

  /**
   * The rows between two turns: `nodeOf` gives each pushed row its node and agrees with
   * `rowOf`; a row has been pushed exactly when its parent (or the top level) has been
   * expanded; an expanded row has itself been pushed.
   */
  ghost predicate WalkRows(rows: seq<CategoryRow>, nodes: set<TreeResult>, rowOf: map<TreeResult, Option<CategoryRow>>,
                           nodeOf: map<CategoryRow, TreeResult>, expanded: set<Option<nat>>, notPushed: set<CategoryRow>)
  {
    && (forall n :: n in nodes && n in rowOf && rowOf[n].Some? ==> rowOf[n].value in nodeOf && nodeOf[rowOf[n].value] == n)
    && (forall r :: r in nodeOf ==> r in rows && nodeOf[r] in nodes && nodeOf[r] in rowOf && rowOf[nodeOf[r]] == Some(r))
    && (forall r :: r in rows ==> (r in nodeOf <==> r !in notPushed))
    && (forall r :: r in rows ==> (r !in notPushed <==> r.parentId in expanded))
    && (forall r :: r in rows && Some(r.id) in expanded ==> r !in notPushed)
  }

  /** The walk's whole state between two turns of the loop. */
  ghost predicate Walk(rows: seq<CategoryRow>, root: TreeResult, nodes: set<TreeResult>,
                       parentOf: map<TreeResult, TreeResult>, rowOf: map<TreeResult, Option<CategoryRow>>,
                       nodeOf: map<CategoryRow, TreeResult>, stack: seq<TreeResult>, paths: seq<Option<string>>,
                       visited: set<TreeResult>, expanded: set<Option<nat>>, notPushed: set<CategoryRow>)
  {
    && WalkStacks(nodes, rowOf, stack, paths, visited, expanded)
    && WalkNodes(root, nodes, parentOf, rowOf, stack, visited, expanded)
    && WalkRows(rows, nodes, rowOf, nodeOf, expanded, notPushed)
  }

  /** What a turn needs of the node on top of the stack: it waits unvisited, with its row's path and a row of the table. */
  lemma WalkTop(rows: seq<CategoryRow>, root: TreeResult, nodes: set<TreeResult>,
                parentOf: map<TreeResult, TreeResult>, rowOf: map<TreeResult, Option<CategoryRow>>,
                nodeOf: map<CategoryRow, TreeResult>, stack: seq<TreeResult>, paths: seq<Option<string>>,
                visited: set<TreeResult>, expanded: set<Option<nat>>, notPushed: set<CategoryRow>)
    requires Walk(rows, root, nodes, parentOf, rowOf, nodeOf, stack, paths, visited, expanded, notPushed)
    requires |stack| > 0
    ensures
      var top := stack[|stack| - 1];
      && root in nodes && top in nodes && top !in visited && top in rowOf
      && paths[|paths| - 1] == PathOpt(rowOf[top])
      && (rowOf[top].Some? ==> rowOf[top].value in rows)
  {
    var top := stack[|stack| - 1];
    assert WalkStacks(nodes, rowOf, stack, paths, visited, expanded);
    assert top in nodes && top in rowOf;
    if rowOf[top].Some? {
      assert rowOf[top].value in nodeOf;
    }
  }

  /** Before the loop: only the root, waiting with no path; nothing pushed, nothing expanded. */
  lemma WalkStart(rows: seq<CategoryRow>, root: TreeResult)
    ensures Walk(rows, root, {root}, map[], map[root := None], map[], [root], [None], {}, {}, Elements(rows))
  {
  }

  /**
   * The children one turn pushes: one new node per child row, none of them a node already,
   * and neither a node nor a row twice.
   */
  ghost predicate NewKids(nodes: set<TreeResult>, kids: seq<TreeResult>, kidRows: seq<CategoryRow>)
  {
    && |kids| == |kidRows|
    && (forall i :: 0 <= i < |kids| ==> kids[i] !in nodes)
    && (forall i, j :: 0 <= i < j < |kids| ==> kids[i] != kids[j])
    && (forall i, j :: 0 <= i < j < |kidRows| ==> kidRows[i] != kidRows[j])
  }

  /**
   * One turn of the loop keeps the walk's state: the top node is popped and expanded, and its
   * children — one new node per child row, in table order — are pushed. The rows still to be
   * pushed shrink whenever anything is pushed.
   */
  lemma WalkStep(rows: seq<CategoryRow>, root: TreeResult, nodes: set<TreeResult>,
                 parentOf: map<TreeResult, TreeResult>, rowOf: map<TreeResult, Option<CategoryRow>>,
                 nodeOf: map<CategoryRow, TreeResult>, stack: seq<TreeResult>, paths: seq<Option<string>>,
                 visited: set<TreeResult>, expanded: set<Option<nat>>, notPushed: set<CategoryRow>,
                 kids: seq<TreeResult>, kidRows: seq<CategoryRow>)
    requires UniqueIds(rows) && ParentsBefore(rows)
    requires Walk(rows, root, nodes, parentOf, rowOf, nodeOf, stack, paths, visited, expanded, notPushed)
    requires |stack| > 0
    requires kidRows == ChildrenOf(rows, IdOpt(rowOf[stack[|stack| - 1]]))
    requires NewKids(nodes, kids, kidRows)
    ensures
      var top := stack[|stack| - 1];
      var notPushed' := notPushed - Elements(kidRows);
      && Walk(rows, root, nodes + Elements(kids),
              parentOf + Zip(kids, Repeat(top, |kids|)), rowOf + Zip(kids, Somes(kidRows)),
              nodeOf + Zip(kidRows, kids),
              stack[..|stack| - 1] + kids, paths[..|paths| - 1] + PresentPaths(kidRows),
              visited + {top}, expanded + {IdOpt(rowOf[top])}, notPushed')
      && notPushed' <= notPushed
      && (kids == [] ==> notPushed' == notPushed)
      && (kids == [] || notPushed' < notPushed)
  {
    var top := stack[|stack| - 1];
    KidRowsUnpushed(rows, nodes, rowOf, nodeOf, stack, paths, visited, expanded, notPushed, kidRows);
    StackStep(rows, root, nodes, parentOf, rowOf, nodeOf, stack, paths, visited, expanded, notPushed, kids, kidRows);
    NodesStep(root, nodes, parentOf, rowOf, stack, paths, visited, expanded, kids, kidRows);
    RowsStep(rows, nodes, rowOf, nodeOf, expanded, notPushed, top, kids, kidRows);
    var nodes', stack', paths' := nodes + Elements(kids), stack[..|stack| - 1] + kids, paths[..|paths| - 1] + PresentPaths(kidRows);
    var parentOf', rowOf', nodeOf' := parentOf + Zip(kids, Repeat(top, |kids|)), rowOf + Zip(kids, Somes(kidRows)), nodeOf + Zip(kidRows, kids);
    var visited', expanded', notPushed' := visited + {top}, expanded + {IdOpt(rowOf[top])}, notPushed - Elements(kidRows);
    assert Walk(rows, root, nodes', parentOf', rowOf', nodeOf', stack', paths', visited', expanded', notPushed');
    if kids != [] {
      assert kidRows[0] in notPushed && kidRows[0] !in notPushed';
    }
  }

  /**
   * The children of the popped row are rows not pushed yet, and none of them already has a
   * node, is expanded, or is the popped row itself.
   */
  lemma KidRowsUnpushed(rows: seq<CategoryRow>, nodes: set<TreeResult>, rowOf: map<TreeResult, Option<CategoryRow>>,
                        nodeOf: map<CategoryRow, TreeResult>, stack: seq<TreeResult>, paths: seq<Option<string>>,
                        visited: set<TreeResult>, expanded: set<Option<nat>>, notPushed: set<CategoryRow>,
                        kidRows: seq<CategoryRow>)
    requires UniqueIds(rows) && ParentsBefore(rows)
    requires WalkStacks(nodes, rowOf, stack, paths, visited, expanded)
    requires WalkRows(rows, nodes, rowOf, nodeOf, expanded, notPushed)
    requires |stack| > 0
    requires kidRows == ChildrenOf(rows, IdOpt(rowOf[stack[|stack| - 1]]))
    ensures forall r :: r in kidRows ==> r in rows && r in notPushed && r !in nodeOf && Some(r.id) !in expanded
    ensures forall r :: r in kidRows ==> Some(r.id) != IdOpt(rowOf[stack[|stack| - 1]])
  {
    var top := stack[|stack| - 1];
    assert top in nodes && top in rowOf;
    assert rowOf[top].Some? ==> rowOf[top].value in nodeOf && rowOf[top].value in rows;
  }

  /** The stack half of `WalkStep`: the new stacks are paired, unvisited, unexpanded and repeat-free. */
  lemma StackStep(rows: seq<CategoryRow>, root: TreeResult, nodes: set<TreeResult>,
                  parentOf: map<TreeResult, TreeResult>, rowOf: map<TreeResult, Option<CategoryRow>>,
                  nodeOf: map<CategoryRow, TreeResult>, stack: seq<TreeResult>, paths: seq<Option<string>>,
                  visited: set<TreeResult>, expanded: set<Option<nat>>, notPushed: set<CategoryRow>,
                  kids: seq<TreeResult>, kidRows: seq<CategoryRow>)
    requires UniqueIds(rows)
    requires WalkStacks(nodes, rowOf, stack, paths, visited, expanded)
    requires WalkNodes(root, nodes, parentOf, rowOf, stack, visited, expanded)
    requires WalkRows(rows, nodes, rowOf, nodeOf, expanded, notPushed)
    requires |stack| > 0
    requires NewKids(nodes, kids, kidRows)
    requires forall r :: r in kidRows ==> Some(r.id) !in expanded && Some(r.id) != IdOpt(rowOf[stack[|stack| - 1]])
    ensures
      var last := |stack| - 1;
      WalkStacks(nodes + Elements(kids), rowOf + Zip(kids, Somes(kidRows)),
                 stack[..last] + kids, paths[..last] + PresentPaths(kidRows),
                 visited + {stack[last]}, expanded + {IdOpt(rowOf[stack[last]])})
  {
    var last := |stack| - 1;
    var top := stack[last];
    var stack', paths' := stack[..last] + kids, paths[..last] + PresentPaths(kidRows);
    var pairing := Zip(kids, Somes(kidRows));
    var rowOf' := rowOf + pairing;
    forall i | 0 <= i < |stack'|
      ensures stack'[i] in nodes + Elements(kids) && stack'[i] !in visited + {top} && stack'[i] in rowOf'
              && paths'[i] == PathOpt(rowOf'[stack'[i]]) && IdOpt(rowOf'[stack'[i]]) !in expanded + {IdOpt(rowOf[top])}
    {
      if i < last {
        var n := stack[i];
        assert stack'[i] == n && paths'[i] == paths[i] && n != top;
        assert n !in kids;
        assert n !in pairing;
      } else {
        var k := i - last;
        assert stack'[i] == kids[k] && paths'[i] == Some(kidRows[k].path);
      }
    }
    forall i, j | 0 <= i < last && 0 <= j < |kids| ensures stack[..last][i] != kids[j] {
      assert stack[..last][i] == stack[i] && stack[i] in nodes;
    }
    AppendDistinct(stack[..last], kids);
    assert WalkStacks(nodes + Elements(kids), rowOf', stack', paths', visited + {top}, expanded + {IdOpt(rowOf[top])});
  }

  /** The node half of `WalkStep`. */
  lemma NodesStep(root: TreeResult, nodes: set<TreeResult>, parentOf: map<TreeResult, TreeResult>,
                  rowOf: map<TreeResult, Option<CategoryRow>>, stack: seq<TreeResult>, paths: seq<Option<string>>,
                  visited: set<TreeResult>, expanded: set<Option<nat>>,
                  kids: seq<TreeResult>, kidRows: seq<CategoryRow>)
    requires WalkStacks(nodes, rowOf, stack, paths, visited, expanded)
    requires WalkNodes(root, nodes, parentOf, rowOf, stack, visited, expanded)
    requires |stack| > 0
    requires NewKids(nodes, kids, kidRows)
    ensures
      var top := stack[|stack| - 1];
      WalkNodes(root, nodes + Elements(kids), parentOf + Zip(kids, Repeat(top, |kids|)),
                rowOf + Zip(kids, Somes(kidRows)), stack[..|stack| - 1] + kids,
                visited + {top}, expanded + {IdOpt(rowOf[top])})
  {
    NodesStepCovered(root, nodes, parentOf, rowOf, stack, paths, visited, expanded, kids, kidRows);
    NodesStepParents(root, nodes, parentOf, rowOf, stack, paths, visited, expanded, kids, kidRows);
    NodesStepExpanded(root, nodes, parentOf, rowOf, stack, paths, visited, expanded, kids, kidRows);
    assert root !in kids;
  }

  /** After the push every node has a row and is visited or waiting, the new ones waiting. */
  lemma NodesStepCovered(root: TreeResult, nodes: set<TreeResult>, parentOf: map<TreeResult, TreeResult>,
                         rowOf: map<TreeResult, Option<CategoryRow>>, stack: seq<TreeResult>, paths: seq<Option<string>>,
                         visited: set<TreeResult>, expanded: set<Option<nat>>,
                         kids: seq<TreeResult>, kidRows: seq<CategoryRow>)
    requires WalkStacks(nodes, rowOf, stack, paths, visited, expanded)
    requires WalkNodes(root, nodes, parentOf, rowOf, stack, visited, expanded)
    requires |stack| > 0
    requires NewKids(nodes, kids, kidRows)
    ensures
      var last := |stack| - 1;
      NodesCovered(nodes + Elements(kids), rowOf + Zip(kids, Somes(kidRows)), stack[..last] + kids, visited + {stack[last]})
  {
    var last := |stack| - 1;
    var nodes', stack', visited' := nodes + Elements(kids), stack[..last] + kids, visited + {stack[last]};
    var rowOf' := rowOf + Zip(kids, Somes(kidRows));
    forall n | n in nodes' ensures n in rowOf' && (n in visited' || n in stack') {
      if n in kids {
        var k :| 0 <= k < |kids| && kids[k] == n;
        assert stack'[last + k] == n;
      } else if n !in visited' {
        var i :| 0 <= i < |stack| && stack[i] == n;
        assert stack'[i] == n;
      }
    }
  }

  /** After the push every node but the root has a row and a visited parent, the new ones the popped node. */
  lemma NodesStepParents(root: TreeResult, nodes: set<TreeResult>, parentOf: map<TreeResult, TreeResult>,
                         rowOf: map<TreeResult, Option<CategoryRow>>, stack: seq<TreeResult>, paths: seq<Option<string>>,
                         visited: set<TreeResult>, expanded: set<Option<nat>>,
                         kids: seq<TreeResult>, kidRows: seq<CategoryRow>)
    requires WalkStacks(nodes, rowOf, stack, paths, visited, expanded)
    requires WalkNodes(root, nodes, parentOf, rowOf, stack, visited, expanded)
    requires |stack| > 0
    requires NewKids(nodes, kids, kidRows)
    ensures
      var top := stack[|stack| - 1];
      var parentOf', rowOf' := parentOf + Zip(kids, Repeat(top, |kids|)), rowOf + Zip(kids, Somes(kidRows));
      NodesParented(root, nodes + Elements(kids), parentOf', rowOf', visited + {top})
  {
    var top := stack[|stack| - 1];
    var parentOf', rowOf' := parentOf + Zip(kids, Repeat(top, |kids|)), rowOf + Zip(kids, Somes(kidRows));
    forall n | n in nodes + Elements(kids) && n != root
      ensures n in rowOf' && rowOf'[n].Some? && n in parentOf' && parentOf'[n] in visited + {top}
    {
      if n in kids {
        var k :| 0 <= k < |kids| && kids[k] == n;
        assert rowOf'[n] == Some(kidRows[k]) && parentOf'[n] == top;
      } else {
        assert n in nodes && rowOf'[n] == rowOf[n] && parentOf'[n] == parentOf[n];
      }
    }
  }

  /** After the push every visited node's row is expanded, the popped one included. */
  lemma NodesStepExpanded(root: TreeResult, nodes: set<TreeResult>, parentOf: map<TreeResult, TreeResult>,
                          rowOf: map<TreeResult, Option<CategoryRow>>, stack: seq<TreeResult>, paths: seq<Option<string>>,
                          visited: set<TreeResult>, expanded: set<Option<nat>>,
                          kids: seq<TreeResult>, kidRows: seq<CategoryRow>)
    requires WalkStacks(nodes, rowOf, stack, paths, visited, expanded)
    requires WalkNodes(root, nodes, parentOf, rowOf, stack, visited, expanded)
    requires |stack| > 0
    requires NewKids(nodes, kids, kidRows)
    ensures
      var top := stack[|stack| - 1];
      var rowOf' := rowOf + Zip(kids, Somes(kidRows));
      && root in rowOf' && rowOf'[root] == None
      && VisitedExpanded(rowOf', visited + {top}, expanded + {IdOpt(rowOf[top])})
  {
    var top := stack[|stack| - 1];
    var rowOf' := rowOf + Zip(kids, Somes(kidRows));
    forall n | n in visited + {top} ensures n in rowOf' && IdOpt(rowOf'[n]) in expanded + {IdOpt(rowOf[top])} {
      assert n in nodes && n in rowOf && n !in kids;
      assert rowOf'[n] == rowOf[n];
    }
    assert root !in kids;
  }

  /** The row half of `WalkStep`. */
  lemma RowsStep(rows: seq<CategoryRow>, nodes: set<TreeResult>, rowOf: map<TreeResult, Option<CategoryRow>>,
                 nodeOf: map<CategoryRow, TreeResult>, expanded: set<Option<nat>>, notPushed: set<CategoryRow>,
                 top: TreeResult, kids: seq<TreeResult>, kidRows: seq<CategoryRow>)
    requires UniqueIds(rows)
    requires WalkRows(rows, nodes, rowOf, nodeOf, expanded, notPushed)
    requires top in nodes && top in rowOf
    requires kidRows == ChildrenOf(rows, IdOpt(rowOf[top]))
    requires NewKids(nodes, kids, kidRows)
    requires forall r :: r in kidRows ==> r !in nodeOf
    ensures WalkRows(rows, nodes + Elements(kids), rowOf + Zip(kids, Somes(kidRows)), nodeOf + Zip(kidRows, kids),
                     expanded + {IdOpt(rowOf[top])}, notPushed - Elements(kidRows))
  {
    RowsStepNodes(rows, nodes, rowOf, nodeOf, expanded, notPushed, kids, kidRows);
    RowsStepRows(rows, nodes, rowOf, nodeOf, expanded, notPushed, kids, kidRows);
    RowsStepPushed(rows, nodes, rowOf, nodeOf, expanded, notPushed, IdOpt(rowOf[top]), kids, kidRows);
    RowsStepExpanded(rows, nodes, rowOf, nodeOf, expanded, notPushed, top, kidRows);
  }

  /** After the push each node with a row is that row's node, new nodes included. */
  lemma RowsStepNodes(rows: seq<CategoryRow>, nodes: set<TreeResult>, rowOf: map<TreeResult, Option<CategoryRow>>,
                      nodeOf: map<CategoryRow, TreeResult>, expanded: set<Option<nat>>, notPushed: set<CategoryRow>,
                      kids: seq<TreeResult>, kidRows: seq<CategoryRow>)
    requires WalkRows(rows, nodes, rowOf, nodeOf, expanded, notPushed)
    requires NewKids(nodes, kids, kidRows)
    requires forall r :: r in kidRows ==> r !in nodeOf
    ensures
      var rowOf', nodeOf' := rowOf + Zip(kids, Somes(kidRows)), nodeOf + Zip(kidRows, kids);
      forall n :: n in nodes + Elements(kids) && n in rowOf' && rowOf'[n].Some? ==>
        rowOf'[n].value in nodeOf' && nodeOf'[rowOf'[n].value] == n
  {
    var nodes', rowOf', nodeOf' := nodes + Elements(kids), rowOf + Zip(kids, Somes(kidRows)), nodeOf + Zip(kidRows, kids);
    forall n | n in nodes' && n in rowOf' && rowOf'[n].Some? ensures rowOf'[n].value in nodeOf' && nodeOf'[rowOf'[n].value] == n {
      if n in kids {
        var k :| 0 <= k < |kids| && kids[k] == n;
        assert rowOf'[n] == Some(kidRows[k]);
      } else {
        assert rowOf'[n] == rowOf[n] && rowOf[n].value !in kidRows;
      }
    }
  }

  /** After the push each pushed row's node carries that row, new rows included. */
  lemma RowsStepRows(rows: seq<CategoryRow>, nodes: set<TreeResult>, rowOf: map<TreeResult, Option<CategoryRow>>,
                     nodeOf: map<CategoryRow, TreeResult>, expanded: set<Option<nat>>, notPushed: set<CategoryRow>,
                     kids: seq<TreeResult>, kidRows: seq<CategoryRow>)
    requires WalkRows(rows, nodes, rowOf, nodeOf, expanded, notPushed)
    requires NewKids(nodes, kids, kidRows)
    requires forall r :: r in kidRows ==> r in rows
    ensures
      var nodes', rowOf', nodeOf' := nodes + Elements(kids), rowOf + Zip(kids, Somes(kidRows)), nodeOf + Zip(kidRows, kids);
      forall r :: r in nodeOf' ==> r in rows && nodeOf'[r] in nodes' && nodeOf'[r] in rowOf' && rowOf'[nodeOf'[r]] == Some(r)
  {
    var nodes', rowOf', nodeOf' := nodes + Elements(kids), rowOf + Zip(kids, Somes(kidRows)), nodeOf + Zip(kidRows, kids);
    forall r | r in nodeOf' ensures r in rows && nodeOf'[r] in nodes' && nodeOf'[r] in rowOf' && rowOf'[nodeOf'[r]] == Some(r) {
      if r in kidRows {
        var k :| 0 <= k < |kidRows| && kidRows[k] == r;
      } else {
        assert nodeOf'[r] == nodeOf[r] && nodeOf[r] in nodes && nodeOf[r] !in kids;
      }
    }
  }

  /** After the push a row has a node exactly when it has been pushed, exactly when its parent is expanded. */
  lemma RowsStepPushed(rows: seq<CategoryRow>, nodes: set<TreeResult>, rowOf: map<TreeResult, Option<CategoryRow>>,
                       nodeOf: map<CategoryRow, TreeResult>, expanded: set<Option<nat>>, notPushed: set<CategoryRow>,
                       topId: Option<nat>, kids: seq<TreeResult>, kidRows: seq<CategoryRow>)
    requires WalkRows(rows, nodes, rowOf, nodeOf, expanded, notPushed)
    requires kidRows == ChildrenOf(rows, topId)
    requires NewKids(nodes, kids, kidRows)
    ensures
      var nodeOf', expanded', notPushed' := nodeOf + Zip(kidRows, kids), expanded + {topId}, notPushed - Elements(kidRows);
      forall r :: r in rows ==> (r in nodeOf' <==> r !in notPushed') && (r !in notPushed' <==> r.parentId in expanded')
  {
    var nodeOf', expanded', notPushed' := nodeOf + Zip(kidRows, kids), expanded + {topId}, notPushed - Elements(kidRows);
    forall r | r in rows ensures (r in nodeOf' <==> r !in notPushed') && (r !in notPushed' <==> r.parentId in expanded') {
      if r in kidRows {
        var k :| 0 <= k < |kidRows| && kidRows[k] == r;
      }
    }
  }

  /** After the push every expanded row has been pushed, the newly expanded one included. */
  lemma RowsStepExpanded(rows: seq<CategoryRow>, nodes: set<TreeResult>, rowOf: map<TreeResult, Option<CategoryRow>>,
                         nodeOf: map<CategoryRow, TreeResult>, expanded: set<Option<nat>>, notPushed: set<CategoryRow>,
                         top: TreeResult, kidRows: seq<CategoryRow>)
    requires UniqueIds(rows)
    requires WalkRows(rows, nodes, rowOf, nodeOf, expanded, notPushed)
    requires top in nodes && top in rowOf
    ensures forall r :: r in rows && Some(r.id) in expanded + {IdOpt(rowOf[top])} ==> r !in notPushed - Elements(kidRows)
  {
    forall r | r in rows && Some(r.id) in expanded + {IdOpt(rowOf[top])} ensures r !in notPushed {
      if Some(r.id) == IdOpt(rowOf[top]) {
        assert rowOf[top].value in nodeOf;
        assert r == rowOf[top].value;
      }
    }
  }

  /**
   * Once the top level has been expanded and every pushed row has been expanded too, every row
   * has been pushed: its parent is older, so by induction on the id the parent was pushed and
   * expanded first.
   */
  lemma {:induction false} RowPushed(rows: seq<CategoryRow>, expanded: set<Option<nat>>, notPushed: set<CategoryRow>, r: CategoryRow)
    requires ParentsBefore(rows) && ParentsExist(rows)
    requires None in expanded
    requires forall x :: x in rows ==> (x !in notPushed <==> x.parentId in expanded)
    requires forall x :: x in rows && x !in notPushed ==> Some(x.id) in expanded
    requires r in rows
    ensures r !in notPushed
    decreases r.id
  {
    if r.parentId.Some? {
      var parent := FindById(rows, r.parentId.value).value;
      RowPushed(rows, expanded, notPushed, parent);
    }
  }

  /** When the stack runs empty, every node has been visited and every row has a node. */
  lemma WalkDone(rows: seq<CategoryRow>, root: TreeResult, nodes: set<TreeResult>,
                 parentOf: map<TreeResult, TreeResult>, rowOf: map<TreeResult, Option<CategoryRow>>,
                 nodeOf: map<CategoryRow, TreeResult>, paths: seq<Option<string>>,
                 visited: set<TreeResult>, expanded: set<Option<nat>>, notPushed: set<CategoryRow>)
    requires ParentsBefore(rows) && ParentsExist(rows)
    requires Walk(rows, root, nodes, parentOf, rowOf, nodeOf, [], paths, visited, expanded, notPushed)
    ensures nodes == visited
    ensures forall r :: r in rows ==> r in nodeOf
  {
    assert root in visited;
    forall x | x in rows && x !in notPushed ensures Some(x.id) in expanded {
      assert nodeOf[x] in visited;
    }
    forall r | r in rows ensures r in nodeOf {
      RowPushed(rows, expanded, notPushed, r);
    }
  }
}
