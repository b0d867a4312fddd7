/**
  The inspector's view of the element tree: an explicit-stack depth-first
  traversal that pushes each element's children in reverse, and the rows it
  lays out, one per visited element, 20 pixels apart and indented by depth.
*/
module Inspector {
  import opened Common
  import opened Builder

  /** Recursive pre-order: the element, then each child's pre-order in list order. */
  function PreOrder(e: Element): (r: seq<Element>)
    ensures |r| > 0 && r[0] == e
  {
    [e] + Forest(e.children)
  }

  function Forest(es: seq<Element>): seq<Element>
  {
    if |es| == 0 then [] else PreOrder(es[0]) + Forest(es[1..])
  }

  /** The number of elements in a tree, counted on its own. */
  function Size(e: Element): nat
  {
    1 + SizeAll(e.children)
  }

  function SizeAll(es: seq<Element>): nat
  {
    if |es| == 0 then 0 else Size(es[0]) + SizeAll(es[1..])
  }

  /** `reversed(s)`, built from the back. */
  function Reverse<T>(s: seq<T>): (r: seq<T>)
    ensures |r| == |s|
  {
    if |s| == 0 then [] else [s[|s| - 1]] + Reverse(s[..|s| - 1])
  }

  // ---------- sequence facts ----------

  /** Reversing a stack whose top is `x`: `x` comes first. */
  lemma ReversePush<T>(s: seq<T>, x: T)
    ensures Reverse(s + [x]) == [x] + Reverse(s)
  {
    assert (s + [x])[..|s|] == s;
  }

  lemma {:induction false} ReverseAppend<T>(a: seq<T>, b: seq<T>)
    ensures Reverse(a + b) == Reverse(b) + Reverse(a)
    decreases |b|
  {
    if |b| == 0 {
      assert a + b == a;
    } else {
      var b' := b[..|b| - 1];
      assert a + b == (a + b') + [b[|b| - 1]];
      ReversePush(a + b', b[|b| - 1]);
      ReverseAppend(a, b');
      ReversePush(b', b[|b| - 1]);
      assert b' + [b[|b| - 1]] == b;
      Regroup([b[|b| - 1]], Reverse(b'), Reverse(a));
    }
  }

  lemma {:induction false} ReverseTwice<T>(s: seq<T>)
    ensures Reverse(Reverse(s)) == s
    decreases |s|
  {
    if |s| > 0 {
      var s' := s[..|s| - 1];
      ReverseAppend([s[|s| - 1]], Reverse(s'));
      ReverseTwice(s');
      assert Reverse([s[|s| - 1]]) == [s[|s| - 1]] by {
        assert [s[|s| - 1]][..0] == [];
      }
      assert s' + [s[|s| - 1]] == s;
    }
  }

  lemma {:induction false} ForestAppend(a: seq<Element>, b: seq<Element>)
    ensures Forest(a + b) == Forest(a) + Forest(b)
    decreases |a|
  {
    if |a| == 0 {
      assert a + b == b;
    } else {
      assert (a + b)[0] == a[0];
      assert (a + b)[1..] == a[1..] + b;
      ForestAppend(a[1..], b);
      Regroup(PreOrder(a[0]), Forest(a[1..]), Forest(b));
    }
  }

  /** Pre-order lists every element of the tree once: its length is the tree's size. */
  lemma {:induction false} PreOrderCountsNodes(e: Element)
    ensures |PreOrder(e)| == Size(e)
    decreases e, 1
  {
    ForestCountsNodes(e.children);
  }

  lemma {:induction false} ForestCountsNodes(es: seq<Element>)
    ensures |Forest(es)| == SizeAll(es)
    decreases es, 0
  {
    if |es| > 0 {
      PreOrderCountsNodes(es[0]);
      ForestCountsNodes(es[1..]);
    }
  }

  // ---------- the traversal ----------

  /** What is still to be yielded: the pre-orders of the stacked elements, top first. */
  function Pending(stack: seq<Element>): seq<Element>
  {
    Forest(Reverse(stack))
  }

  /** Popping `node` and pushing its children reversed keeps yielded-plus-pending unchanged. */
  lemma DfsStep(visited: seq<Element>, rest: seq<Element>, node: Element)
    ensures (visited + [node]) + Pending(rest + Reverse(node.children)) == visited + Pending(rest + [node])
  {
    var kids := node.children;
    ReversePush(rest, node);
    ForestAppend([node], Reverse(rest));
    assert Forest([node]) == PreOrder(node) by {
      assert [node][1..] == [];
    }
    ReverseAppend(rest, Reverse(kids));
    ReverseTwice(kids);
    ForestAppend(kids, Reverse(rest));
    Regroup([node], Forest(kids), Forest(Reverse(rest)));
    Regroup(visited, [node], Forest(kids) + Forest(Reverse(rest)));
  }

  /**
    The explicit-stack traversal: pop an element, yield it, push its
    children in reverse.  It yields exactly the recursive pre-order, so the
    root comes first and every element of the tree is yielded once.
  */
  method IterativeDfs(root: Element) returns (visited: seq<Element>)
    ensures visited == PreOrder(root)
    ensures |visited| == Size(root) && visited[0] == root
  {
    var stack := [root];
    visited := [];
    assert Pending(stack) == PreOrder(root) by {
      assert stack[..0] == [];
      assert Reverse(stack) == [root] + Reverse([]);
      assert [root][1..] == [];
      assert Forest([root]) == PreOrder(root) + Forest([]);
    }
    while |stack| > 0
      invariant visited + Pending(stack) == PreOrder(root)
      decreases |PreOrder(root)| - |visited|
    {
      var node := stack[|stack| - 1];
      var rest := stack[..|stack| - 1];
      assert rest + [node] == stack;
      DfsStep(visited, rest, node);
      ReversePush(rest, node);
      ForestAppend([node], Reverse(rest));
      stack := rest + Reverse(node.children);
      visited := visited + [node];
    }
    assert Reverse(stack) == [];
    PreOrderCountsNodes(root);
  }

  // ---------- the rows ----------

  const DepthIndent: int := 10
  const RowHeight: int := 20

  /** The inspector's row for one element: its rectangle and its `<tag>` caption. */
  datatype Row = Row(x: int, y: int, width: int, height: int, text: string)

  /** The row the k-th visited element `e` gets, indented by its depth field `depth`. */
  predicate RowOf(r: Row, e: Element, k: nat, depth: int, winWidth: int)
  {
    r.x == depth * DepthIndent && r.y == RowHeight * k && r.width == winWidth - r.x &&
    r.height == RowHeight && r.text == "<" + e.tag + ">"
  }

  /**
    The rows of the whole tree, in traversal order.  `depths[k]` is the
    depth field of the k-th visited element, which every element carries.
    The k-th visited element sits at y = 20 k, 20 high, indented by 10 per
    level of its depth and as wide as the window less the indent.  So the
    rows lie one below the other, in visiting order, without overlapping.
  */
  method LoadElementTree(root: Element, depths: seq<int>, winWidth: int) returns (rows: seq<Row>)
    requires |depths| == Size(root)
    ensures |rows| == |PreOrder(root)| == Size(root)
    ensures forall k :: 0 <= k < |rows| ==> RowOf(rows[k], PreOrder(root)[k], k, depths[k], winWidth)
    ensures forall i, j :: 0 <= i < j < |rows| ==> rows[i].y + RowHeight <= rows[j].y
  {
    var order := IterativeDfs(root);
    rows := [];
    var y := 0;
    var i := 0;
    while i < |order|
      invariant 0 <= i <= |order| && |rows| == i && y == RowHeight * i
      invariant forall k :: 0 <= k < i ==> RowOf(rows[k], order[k], k, depths[k], winWidth)
    {
      var e := order[i];
      var indent := depths[i] * DepthIndent;
      rows := rows + [Row(indent, y, winWidth - indent, RowHeight, "<" + e.tag + ">")];
      y := y + RowHeight;
      i := i + 1;
    }
  }
}
