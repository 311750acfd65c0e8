/** i3's layout tree and the two searches the client offers over it. */
module Tree {
  import opened Wrappers
  import opened Seqs

  /** A container of the layout tree. `nodeType` is i3's type string
      ("root", "output", "con", "floating_con", "workspace", "dockarea").
      `focus` lists child IDs, most recently focused first. Geometry,
      borders and window properties are not modelled. */
  datatype Node = Node(
    id: int,
    name: string,
    nodeType: string,
    urgent: bool,
    focused: bool,
    window: int,
    focus: seq<int>,
    nodes: seq<Node>,
    floatingNodes: seq<Node>)

  /** The subtree of `n` in pre-order: `n`, then each tiling child's
      subtree, then each floating child's subtree. */
  function Preorder(n: Node): seq<Node>
    decreases n, 1
  {
    [n] + PreorderAll(n.nodes) + PreorderAll(n.floatingNodes)
  }

  function PreorderAll(cs: seq<Node>): seq<Node>
    decreases cs, 0
  {
    if cs == [] then [] else Preorder(cs[0]) + PreorderAll(cs[1..])
  }

  /** `n.FindChild(predicate)`. */
  function FindChild(n: Node, p: Node -> bool): (r: Option<Node>)
    ensures p(n) ==> r == Some(n)
    ensures r.Some? ==> p(r.value)
    decreases n, 1
  {
    if p(n) then Some(n)
    else match FindChildIn(n.nodes, p)
      case Some(c) => Some(c)
      case None => FindChildIn(n.floatingNodes, p)
  }

  /** The `for _, c := range cs { if con := c.FindChild(...) ... }` loop. */
  function FindChildIn(cs: seq<Node>, p: Node -> bool): (r: Option<Node>)
    ensures r.Some? ==> p(r.value)
    decreases cs, 0
  {
    if cs == [] then None
    else match FindChild(cs[0], p)
      case Some(c) => Some(c)
      case None => FindChildIn(cs[1..], p)
  }

  /** `FindChild` returns the first node of the subtree, in pre-order
      (tiling children before floating ones), that satisfies the
      predicate, and nil exactly when no node of the subtree does. */
  lemma {:induction false} FindChildIsFirstInPreorder(n: Node, p: Node -> bool)
    ensures FindChild(n, p) == Find(Preorder(n), p)
    ensures FindChild(n, p).None? <==>
      forall j :: 0 <= j < |Preorder(n)| ==> !p(Preorder(n)[j])
    decreases n, 1
  {
    var a, b := PreorderAll(n.nodes), PreorderAll(n.floatingNodes);
    assert Preorder(n) == [n] + (a + b);
    FindAppend([n], a + b, p);
    FindAppend(a, b, p);
    FindChildInIsFirstInPreorder(n.nodes, p);
    FindChildInIsFirstInPreorder(n.floatingNodes, p);
  }

  lemma {:induction false} FindChildInIsFirstInPreorder(cs: seq<Node>, p: Node -> bool)
    ensures FindChildIn(cs, p) == Find(PreorderAll(cs), p)
    decreases cs, 0
  {
    if cs != [] {
      FindChildIsFirstInPreorder(cs[0], p);
      FindChildInIsFirstInPreorder(cs[1..], p);
      FindAppend(Preorder(cs[0]), PreorderAll(cs[1..]), p);
    }
  }

  /** The child whose ID is `n.Focus[0]`, looked for among the tiling
      children first and then among the floating ones. */
  function FocusedChild(n: Node): (r: Option<Node>)
    requires |n.focus| > 0
    ensures r.Some? ==> r.value.id == n.focus[0]
    ensures r.Some? ==> r.value in n.nodes || r.value in n.floatingNodes
    ensures r.None? <==>
      (forall j :: 0 <= j < |n.nodes| ==> n.nodes[j].id != n.focus[0])
      && (forall j :: 0 <= j < |n.floatingNodes| ==> n.floatingNodes[j].id != n.focus[0])
    ensures (exists j :: 0 <= j < |n.nodes| && n.nodes[j].id == n.focus[0]) ==>
      r.Some? && r.value in n.nodes
  {
    var s := n.nodes + n.floatingNodes;
    var r := Find(s, (c: Node) => c.id == n.focus[0]);
    assert forall j :: 0 <= j < |n.nodes| ==> s[j] == n.nodes[j];
    assert forall j :: 0 <= j < |n.floatingNodes| ==> s[|n.nodes| + j] == n.floatingNodes[j];
    FindAppend(n.nodes, n.floatingNodes, (c: Node) => c.id == n.focus[0]);
    r
  }

  /** The focus path from `n`: `n`, then the path from its focused child,
      ending where a node has no focus list or no child with that ID. */
  function FocusPath(n: Node): (r: seq<Node>)
    ensures |r| >= 1 && r[0] == n
    ensures forall i :: 0 <= i < |r| - 1 ==>
      |r[i].focus| > 0 && FocusedChild(r[i]) == Some(r[i + 1])
    ensures |r[|r| - 1].focus| == 0 || FocusedChild(r[|r| - 1]).None?
  {
    if |n.focus| == 0 then [n]
    else match FocusedChild(n)
      case None => [n]
      case Some(c) =>
        var rest := FocusPath(c);
        var r := [n] + rest;
        assert forall i :: 1 <= i < |r| ==> r[i] == rest[i - 1];
        assert r[1] == c && r[|r| - 1] == rest[|rest| - 1];
        r
  }

  /** `n.FindFocused(predicate)`. */
  function FindFocused(n: Node, p: Node -> bool): (r: Option<Node>)
    ensures p(n) ==> r == Some(n)
    ensures !p(n) && |n.focus| == 0 ==> r.None?
    ensures r.Some? ==> p(r.value)
  {
    if p(n) then Some(n)
    else if |n.focus| == 0 then None
    else match FocusedChild(n)
      case None => None
      case Some(c) => FindFocused(c, p)
  }

  /** `FindFocused` returns the first node on the focus path that satisfies
      the predicate, so any result lies on that path. */
  lemma {:induction false} FindFocusedIsFirstOnFocusPath(n: Node, p: Node -> bool)
    ensures FindFocused(n, p) == Find(FocusPath(n), p)
    ensures FindFocused(n, p).Some? ==> FindFocused(n, p).value in FocusPath(n)
  {
    if !p(n) && |n.focus| > 0 && FocusedChild(n).Some? {
      var c := FocusedChild(n).value;
      FindFocusedIsFirstOnFocusPath(c, p);
      FindAppend([n], FocusPath(c), p);
    } else {
      FindAppend([n], FocusPath(n)[1..], p);
      assert FocusPath(n) == [n] + FocusPath(n)[1..];
    }
  }
}
