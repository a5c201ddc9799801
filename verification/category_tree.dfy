/**
 * The category tree as the application layer returns it (`Get…CategoryTreeResult`) and as the
 * web layer sends it (`Get…CategoryTreeResponse`), and the controllers' copy from one to the
 * other. Both hierarchies use the same shapes; the leaf names are the item-type names or the
 * storage names.
 */
module CategoryTree {

  /**
   * One node of the application-layer tree: a category's name, its sub-categories, its leaves.
   * The name is given once, by the object initializer that creates the node.
   */
  class TreeResult {
    const name: string
    var children: seq<TreeResult>
    var leafNames: seq<string>

    constructor (name: string)
      ensures this.name == name && children == [] && leafNames == []
    {
      this.name := name;
      children := [];
      leafNames := [];
    }
  }

  /** One node of the response: the application node plus the two counts the client shows. */
  class TreeResponse {
    var name: string
    var children: seq<TreeResponse>
    var childCount: int
    var leafNames: seq<string>
    var leafCount: int

    /**
     * `new GetItemTypeCategoryTreeResponse()`: the DTO leaves `Name`, `Children` and `ItemNames`
     * null, modelled as "" and []; the copy loop fills every node before it returns.
     */
    constructor ()
      ensures name == "" && children == [] && childCount == 0 && leafNames == [] && leafCount == 0
    {
      name := "";
      children := [];
      childCount := 0;
      leafNames := [];
      leafCount := 0;
    }

    /** The loop body's field assignments: name and leaves copied, both counts, the children. */
    method Fill(name: string, leafNames: seq<string>, children: seq<TreeResponse>)
      modifies this
      ensures this.name == name && this.leafNames == leafNames && leafCount == |leafNames|
      ensures this.children == children && childCount == |children|
    {
      this.name := name;
      this.leafNames := leafNames;
      leafCount := |leafNames|;
      childCount := |children|;
      this.children := children;
    }
  }

  /**
   * The child list of `n` stays inside `nodes`, never holds `root`, holds no node twice, and
   * `parentOf` maps each child back to `n`.
   */
  ghost predicate Linked(n: TreeResult, root: TreeResult, nodes: set<TreeResult>, parentOf: map<TreeResult, TreeResult>)
    reads n
  {
    && (forall i :: 0 <= i < |n.children| ==>
          n.children[i] in nodes && n.children[i] != root && n.children[i] in parentOf && parentOf[n.children[i]] == n)
    && (forall i, j :: 0 <= i < j < |n.children| ==> n.children[i] != n.children[j])
  }

  /** `nodes` with `root` form a tree: every node's child list is linked, so a node has one parent at most. */
  ghost predicate IsTree(root: TreeResult, nodes: set<TreeResult>, parentOf: map<TreeResult, TreeResult>)
    reads nodes
  {
    root in nodes && forall n :: n in nodes ==> Linked(n, root, nodes, parentOf)
  }

  /** `r` is the response copy of `n`: same name and leaves, both counts, children copied in order. */
  ghost predicate Copies(r: TreeResponse, n: TreeResult, respOf: map<TreeResult, TreeResponse>)
    reads r, n
  {
    && r.name == n.name
    && r.leafNames == n.leafNames
    && r.leafCount == |n.leafNames|
    && r.childCount == |n.children|
    && |r.children| == |n.children|
    && (forall i :: 0 <= i < |n.children| ==> n.children[i] in respOf && r.children[i] == respOf[n.children[i]])
  }

  /**
   * The `foreach` over a node's children: one fresh, empty response node per child, and the
   * pairing of each child with its response node.
   */
  method NewResponses(kids: seq<TreeResult>) returns (responses: seq<TreeResponse>, ghost pairing: map<TreeResult, TreeResponse>)
    requires forall i, j :: 0 <= i < j < |kids| ==> kids[i] != kids[j]
    ensures |responses| == |kids|
    ensures forall i :: 0 <= i < |kids| ==> fresh(responses[i]) && kids[i] in pairing && pairing[kids[i]] == responses[i]
    ensures forall n :: n in pairing ==> n in kids && fresh(pairing[n])
    ensures forall a, b :: a in pairing && b in pairing && a != b ==> pairing[a] != pairing[b]
    ensures forall i, j :: 0 <= i < j < |kids| ==> responses[i] != responses[j]
  {
    responses, pairing := [], map[];
    for i := 0 to |kids|
      invariant |responses| == i
      invariant forall k :: 0 <= k < i ==> fresh(responses[k]) && kids[k] in pairing && pairing[kids[k]] == responses[k]
      invariant forall n :: n in pairing ==> n in kids[..i] && fresh(pairing[n])
      invariant forall a, b :: a in pairing && b in pairing && a != b ==> pairing[a] != pairing[b]
      invariant forall k, j :: 0 <= k < j < i ==> responses[k] != responses[j]
    {
      var r := new TreeResponse();
      responses := responses + [r];
      pairing := pairing[kids[i] := r];
    }
  }

  /** A copy stays a copy when the pairing gains entries for other nodes. */
  lemma CopiesExtend(r: TreeResponse, n: TreeResult, small: map<TreeResult, TreeResponse>, large: map<TreeResult, TreeResponse>)
    requires Copies(r, n, small)
    requires forall m :: m in small ==> m in large && large[m] == small[m]
    ensures Copies(r, n, large)
  {
  }

  /**
   * The bookkeeping of the copy loop, apart from the heap: the two stacks are paired through
   * `respOf` and hold no visited node and no repeat; every paired node is visited or waiting on
   * the stack, and is the root or a child of a visited node; no two nodes share a response.
   */
  ghost predicate CopyWalk(appRoot: TreeResult, nodes: set<TreeResult>, parentOf: map<TreeResult, TreeResult>,
                       appStack: seq<TreeResult>, responseStack: seq<TreeResponse>,
                       respOf: map<TreeResult, TreeResponse>, visited: set<TreeResult>)
  {
    && |appStack| == |responseStack|
    && (forall i :: 0 <= i < |appStack| ==>
          appStack[i] in respOf && appStack[i] !in visited && respOf[appStack[i]] == responseStack[i])
    && (forall i, j :: 0 <= i < j < |appStack| ==> appStack[i] != appStack[j])
    && appRoot in respOf
    && visited <= nodes
    && (forall n :: n in visited ==> n in respOf)
    && (forall n :: n in respOf ==> n in nodes && (n in visited || n in appStack))
    && (forall n :: n in respOf ==> n == appRoot || (n in parentOf && parentOf[n] in visited))
    && (forall a, b :: a in respOf && b in respOf && a != b ==> respOf[a] != respOf[b])
  }

  /**
   * One turn of the copy loop keeps the bookkeeping: pop the top node, pair its children with
   * new response nodes, push both.
   */
  lemma CopyStep(appRoot: TreeResult, nodes: set<TreeResult>, parentOf: map<TreeResult, TreeResult>,
                 appStack: seq<TreeResult>, responseStack: seq<TreeResponse>,
                 respOf: map<TreeResult, TreeResponse>, visited: set<TreeResult>,
                 kids: seq<TreeResult>, children: seq<TreeResponse>, pairing: map<TreeResult, TreeResponse>)
    requires CopyWalk(appRoot, nodes, parentOf, appStack, responseStack, respOf, visited)
    requires |appStack| > 0
    requires forall i :: 0 <= i < |kids| ==>
               kids[i] in nodes && kids[i] != appRoot && kids[i] in parentOf && parentOf[kids[i]] == appStack[|appStack| - 1]
    requires forall i, j :: 0 <= i < j < |kids| ==> kids[i] != kids[j]
    requires |children| == |kids|
    requires forall i :: 0 <= i < |kids| ==> kids[i] in pairing && pairing[kids[i]] == children[i]
    requires forall n :: n in pairing ==> n in kids
    requires forall a, b :: a in pairing && b in pairing && a != b ==> pairing[a] != pairing[b]
    requires forall a, b :: a in pairing && b in respOf ==> pairing[a] != respOf[b]
    ensures forall n :: n in respOf ==> n in respOf + pairing && (respOf + pairing)[n] == respOf[n]
    ensures CopyWalk(appRoot, nodes, parentOf,
                 appStack[..|appStack| - 1] + kids, responseStack[..|responseStack| - 1] + children,
                 respOf + pairing, visited + {appStack[|appStack| - 1]})
  {
    var last := |appStack| - 1;
    var top, rest, restResponses := appStack[last], appStack[..last], responseStack[..last];
    assert appStack == rest + [top];
    PairedKidsAreNew(appRoot, nodes, parentOf, respOf, visited, top, kids, pairing);
    forall i | 0 <= i < |rest| ensures rest[i] != top && rest[i] in respOf {
      assert rest[i] == appStack[i];
    }
    PushPaired(rest, restResponses, kids, children, respOf, pairing, visited + {top});
    PushCovers(rest, top, kids, respOf, pairing, visited);
    UnionInjective(respOf, pairing);
  }

  /** Two injective maps on disjoint keys whose values never meet make an injective union. */
  lemma UnionInjective<A, B>(before: map<A, B>, pairing: map<A, B>)
    requires forall a, b :: a in before && b in before && a != b ==> before[a] != before[b]
    requires forall a, b :: a in pairing && b in pairing && a != b ==> pairing[a] != pairing[b]
    requires forall a, b :: a in pairing && b in before ==> pairing[a] != before[b]
    requires forall n :: n in pairing ==> n !in before
    ensures forall a, b :: a in before + pairing && b in before + pairing && a != b ==>
              (before + pairing)[a] != (before + pairing)[b]
  {
  }

  /**
   * The children of the node on top of the stack have not been paired yet, since their parent
   * has not been visited; they are nodes of the tree whose parent is that node.
   */
  lemma PairedKidsAreNew(appRoot: TreeResult, nodes: set<TreeResult>, parentOf: map<TreeResult, TreeResult>,
                         respOf: map<TreeResult, TreeResponse>, visited: set<TreeResult>, top: TreeResult,
                         kids: seq<TreeResult>, pairing: map<TreeResult, TreeResponse>)
    requires forall n :: n in respOf ==> n == appRoot || (n in parentOf && parentOf[n] in visited)
    requires top !in visited
    requires forall i :: 0 <= i < |kids| ==>
               kids[i] in nodes && kids[i] != appRoot && kids[i] in parentOf && parentOf[kids[i]] == top
    requires forall n :: n in pairing ==> n in kids
    ensures forall n :: n in pairing ==> n !in respOf && n in nodes && n in parentOf && parentOf[n] == top
  {
    forall n | n in pairing ensures n !in respOf && n in nodes && n in parentOf && parentOf[n] == top {
      var k :| 0 <= k < |kids| && kids[k] == n;
    }
  }

  /**
   * Pushing the children of a node keeps the two stacks paired through the grown pairing, free
   * of nodes already visited and free of repeats.
   */
  lemma PushPaired<A, B>(rest: seq<A>, restResponses: seq<B>, kids: seq<A>, children: seq<B>,
                         before: map<A, B>, pairing: map<A, B>, done: set<A>)
    requires |rest| == |restResponses| && |kids| == |children|
    requires forall i :: 0 <= i < |rest| ==> rest[i] in before && rest[i] !in done && before[rest[i]] == restResponses[i]
    requires forall i, j :: 0 <= i < j < |rest| ==> rest[i] != rest[j]
    requires forall i :: 0 <= i < |kids| ==> kids[i] in pairing && pairing[kids[i]] == children[i] && kids[i] !in before
    requires forall i, j :: 0 <= i < j < |kids| ==> kids[i] != kids[j]
    requires forall n :: n in done ==> n in before
    requires forall n :: n in pairing ==> n !in before
    ensures forall i :: 0 <= i < |rest + kids| ==>
              (rest + kids)[i] in before + pairing && (rest + kids)[i] !in done
              && (before + pairing)[(rest + kids)[i]] == (restResponses + children)[i]
    ensures forall i, j :: 0 <= i < j < |rest + kids| ==> (rest + kids)[i] != (rest + kids)[j]
    ensures forall a, b :: a in before && b in pairing ==> a != b
  {
    var stack, responses, m := rest + kids, restResponses + children, before + pairing;
    forall i | 0 <= i < |stack|
      ensures stack[i] in m && stack[i] !in done && m[stack[i]] == responses[i]
    {
      if i >= |rest| {
        var k := i - |rest|;
        assert stack[i] == kids[k] && responses[i] == children[k];
      }
    }
    forall i, j | 0 <= i < j < |stack| ensures stack[i] != stack[j] {
      if i < |rest| <= j {
        assert stack[i] in before && stack[j] == kids[j - |rest|];
      } else if |rest| <= i {
        assert stack[i] == kids[i - |rest|] && stack[j] == kids[j - |rest|];
      }
    }
  }

  /** After the turn every paired node is visited or on the new stack. */
  lemma PushCovers<A, B>(rest: seq<A>, top: A, kids: seq<A>, before: map<A, B>, pairing: map<A, B>, visited: set<A>)
    requires forall n :: n in before ==> n in visited || n in rest + [top]
    requires forall n :: n in pairing ==> n in kids
    ensures forall n :: n in before + pairing ==> n in visited + {top} || n in rest + kids
  {
    forall n | n in before + pairing ensures n in visited + {top} || n in rest + kids {
      if n in pairing {
        var k :| 0 <= k < |kids| && kids[k] == n;
        assert (rest + kids)[|rest| + k] == n;
      } else if n !in visited + {top} {
        var i :| 0 <= i < |rest + [top]| && (rest + [top])[i] == n;
        assert (rest + kids)[i] == n;
      }
    }
  }

  /**
   * The loop body's copy of one node into its response node: afterwards that node and every
   * node visited before it are copied, through the pairing grown by the node's children.
   */
  method FillAndExtend(appNode: TreeResult, responseNode: TreeResponse, ghost respOf: map<TreeResult, TreeResponse>,
                       ghost visited: set<TreeResult>, children: seq<TreeResponse>, ghost pairing: map<TreeResult, TreeResponse>)
    modifies responseNode
    requires appNode in respOf && respOf[appNode] == responseNode
    requires forall n :: n in visited ==> n in respOf && respOf[n] != responseNode && Copies(respOf[n], n, respOf)
    requires |children| == |appNode.children|
    requires forall i :: 0 <= i < |children| ==> appNode.children[i] in pairing && pairing[appNode.children[i]] == children[i]
    requires forall n :: n in respOf ==> n in respOf + pairing && (respOf + pairing)[n] == respOf[n]
    ensures forall n :: n in visited + {appNode} ==> Copies((respOf + pairing)[n], n, respOf + pairing)
  {
    responseNode.Fill(appNode.name, appNode.leafNames, children);
    assert forall n :: n in visited ==> Copies(respOf[n], n, respOf) by {
      forall n | n in visited ensures Copies(respOf[n], n, respOf) {
        assert respOf[n] != responseNode;
      }
    }
    forall n | n in visited ensures Copies((respOf + pairing)[n], n, respOf + pairing) {
      CopiesExtend(respOf[n], n, respOf, respOf + pairing);
    }
    assert Copies(responseNode, appNode, respOf + pairing);
  }

  /**
   * The `GetTree` action's loop: a pair of stacks walks the application tree and builds a fresh
   * response node per application node. `respOf` pairs them up: it covers the root and is closed
   * under children, each response node copies its application node, and no two application
   * nodes share a response node.
   */
  method CopyTree(appRoot: TreeResult, ghost nodes: set<TreeResult>, ghost parentOf: map<TreeResult, TreeResult>)
    returns (response: TreeResponse, ghost respOf: map<TreeResult, TreeResponse>)
    requires IsTree(appRoot, nodes, parentOf)
    ensures appRoot in respOf && respOf[appRoot] == response
    ensures forall n :: n in respOf ==> n in nodes && fresh(respOf[n]) && Copies(respOf[n], n, respOf)
    ensures forall a, b :: a in respOf && b in respOf && a != b ==> respOf[a] != respOf[b]
  {
    response := new TreeResponse();
    var appStack := [appRoot];
    var responseStack := [response];
    respOf := map[appRoot := response];
    ghost var visited: set<TreeResult> := {};
    while |appStack| > 0
      invariant CopyWalk(appRoot, nodes, parentOf, appStack, responseStack, respOf, visited)
      invariant respOf[appRoot] == response
      invariant forall n :: n in respOf ==> fresh(respOf[n])
      invariant forall n {:trigger Copies(respOf[n], n, respOf)} :: n in visited ==> Copies(respOf[n], n, respOf)
      decreases nodes - visited
    {
      assert respOf[appStack[|appStack| - 1]] == responseStack[|responseStack| - 1];
      appStack, responseStack, respOf, visited := CopyTurn(appRoot, nodes, parentOf, appStack, responseStack, respOf, visited);
    }
  }

  /**
   * One turn of the copy loop: pop a node and its response node, copy the node into it, and
   * push the node's children paired with fresh response nodes.
   */
  method CopyTurn(appRoot: TreeResult, ghost nodes: set<TreeResult>, ghost parentOf: map<TreeResult, TreeResult>,
                  appStack: seq<TreeResult>, responseStack: seq<TreeResponse>,
                  ghost respOf: map<TreeResult, TreeResponse>, ghost visited: set<TreeResult>)
    returns (appStack': seq<TreeResult>, responseStack': seq<TreeResponse>,
             ghost respOf': map<TreeResult, TreeResponse>, ghost visited': set<TreeResult>)
    requires IsTree(appRoot, nodes, parentOf)
    requires CopyWalk(appRoot, nodes, parentOf, appStack, responseStack, respOf, visited)
    requires |appStack| > 0
    requires forall n {:trigger Copies(respOf[n], n, respOf)} :: n in visited ==> Copies(respOf[n], n, respOf)
    modifies responseStack[|responseStack| - 1]
    ensures CopyWalk(appRoot, nodes, parentOf, appStack', responseStack', respOf', visited')
    ensures forall n {:trigger Copies(respOf'[n], n, respOf')} :: n in visited' ==> Copies(respOf'[n], n, respOf')
    ensures forall n :: n in respOf ==> n in respOf' && respOf'[n] == respOf[n]
    ensures forall n :: n in respOf' && n !in respOf ==> fresh(respOf'[n])
    ensures visited' <= nodes && visited < visited'
  {
    var appNode := appStack[|appStack| - 1];
    var responseNode := responseStack[|responseStack| - 1];
    assert appNode in nodes && Linked(appNode, appRoot, nodes, parentOf);
    var children;
    ghost var pairing;
    children, pairing := NewResponses(appNode.children);
    CopyStep(appRoot, nodes, parentOf, appStack, responseStack, respOf, visited, appNode.children, children, pairing);
    FillAndExtend(appNode, responseNode, respOf, visited, children, pairing);
    respOf' := respOf + pairing;
    appStack', responseStack' := appStack[..|appStack| - 1] + appNode.children, responseStack[..|responseStack| - 1] + children;
    visited' := visited + {appNode};
  }
}
