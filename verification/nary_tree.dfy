/**
  `NaryTree`: the city hierarchy in left-child right-sibling form. A node has a
  name, the head of its child chain and the next node of its own sibling chain;
  `Nil` is the NULL pointer.
 */
module NaryTree {
  import opened Wrappers

  datatype Node = Nil | Node(name: string, firstChild: Node, nextSibling: Node)

  /** A fresh node with no children and no siblings. */
  function Leaf(name: string): Node {
    Node(name, Nil, Nil)
  }

  /** The subtrees of a sibling chain, in order, each cut off from the siblings
      that follow it. */
  function Siblings(n: Node): (r: seq<Node>)
    ensures forall i :: 0 <= i < |r| ==> r[i].Node? && r[i].nextSibling.Nil?
  {
    if n.Nil? then [] else [n.(nextSibling := Nil)] + Siblings(n.nextSibling)
  }

  /** The children of a node: its child chain. */
  function Children(n: Node): seq<Node>
    requires n.Node?
  {
    Siblings(n.firstChild)
  }

  /** Number of nodes reachable from `n` through child and sibling links. */
  function Size(n: Node): nat {
    if n.Nil? then 0 else 1 + Size(n.firstChild) + Size(n.nextSibling)
  }

  /** Names met by `findNodeRecursive`'s search order: the node, its descendants,
      then its later siblings and theirs. */
  function Names(n: Node): seq<string> {
    if n.Nil? then [] else [n.name] + Names(n.firstChild) + Names(n.nextSibling)
  }

  /** The nodes met by `findNodeRecursive`'s search, in the order of `Names`:
      each is the node as it stands in the tree, with its children and later
      siblings. */
  function Subtrees(n: Node): (r: seq<Node>)
    ensures |r| == |Names(n)|
  {
    if n.Nil? then [] else [n] + Subtrees(n.firstChild) + Subtrees(n.nextSibling)
  }

  /** Each position of the search order holds a node carrying the name listed
      there. */
  lemma {:induction false} SubtreesNamed(n: Node)
    ensures forall i :: 0 <= i < |Subtrees(n)| ==> Subtrees(n)[i].Node? && Subtrees(n)[i].name == Names(n)[i]
  {
    if n.Node? {
      SubtreesNamed(n.firstChild);
      SubtreesNamed(n.nextSibling);
      var c := |Subtrees(n.firstChild)|;
      forall i | 0 < i < |Subtrees(n)|
        ensures Subtrees(n)[i].Node? && Subtrees(n)[i].name == Names(n)[i]
      {
        if i <= c {
          assert Subtrees(n)[i] == Subtrees(n.firstChild)[i - 1] && Names(n)[i] == Names(n.firstChild)[i - 1];
        } else {
          assert Subtrees(n)[i] == Subtrees(n.nextSibling)[i - 1 - c] && Names(n)[i] == Names(n.nextSibling)[i - 1 - c];
        }
      }
    }
  }

  /** Position `i` of the search order is the first one that carries `name`. */
  ghost predicate FirstAt(n: Node, name: string, i: int) {
    && 0 <= i < |Names(n)| && Names(n)[i] == name
    && forall m :: 0 <= m < i ==> Names(n)[m] != name
  }

  /** `findNodeRecursive`: the first node named `name` in that order, or NULL. */
  function FindNodeRecursive(n: Node, name: string): (r: Option<Node>)
    ensures r.Some? ==> r.value.Node? && r.value.name == name
    ensures r.Some? ==> exists i :: FirstAt(n, name, i) && Subtrees(n)[i] == r.value
    ensures r.None? <==> name !in Names(n)
  {
    if n.Nil? then None
    else if n.name == name then
      FirstAtHere(n, name);
      Some(n)
    else
      match FindNodeRecursive(n.firstChild, name)
      case Some(found) =>
        FirstInChildren(n, name, found);
        Some(found)
      case None =>
        var r := FindNodeRecursive(n.nextSibling, name);
        if r.Some? then FirstInSiblings(n, name, r.value); r else r
  }

  lemma FirstAtHere(n: Node, name: string)
    requires n.Node? && n.name == name
    ensures FirstAt(n, name, 0) && Subtrees(n)[0] == n
  {
  }

  lemma FirstInChildren(n: Node, name: string, found: Node)
    requires n.Node? && n.name != name
    requires exists j :: FirstAt(n.firstChild, name, j) && Subtrees(n.firstChild)[j] == found
    ensures exists i :: FirstAt(n, name, i) && Subtrees(n)[i] == found
  {
    var j :| FirstAt(n.firstChild, name, j) && Subtrees(n.firstChild)[j] == found;
    FirstAtChild(n, name, j);
    SubtreesAt(n, 1 + j);
  }

  lemma FirstInSiblings(n: Node, name: string, found: Node)
    requires n.Node? && n.name != name && name !in Names(n.firstChild)
    requires exists j :: FirstAt(n.nextSibling, name, j) && Subtrees(n.nextSibling)[j] == found
    ensures exists i :: FirstAt(n, name, i) && Subtrees(n)[i] == found
  {
    var j :| FirstAt(n.nextSibling, name, j) && Subtrees(n.nextSibling)[j] == found;
    FirstAtSibling(n, name, j);
    SubtreesAt(n, 1 + |Names(n.firstChild)| + j);
  }

  /** A first match among the descendants is a first match of the node, one
      position further on. */
  lemma FirstAtChild(n: Node, name: string, j: int)
    requires n.Node? && n.name != name && FirstAt(n.firstChild, name, j)
    ensures FirstAt(n, name, 1 + j)
  {
    var c := Names(n.firstChild);
    assert Names(n) == [n.name] + c + Names(n.nextSibling);
    forall m | 0 < m < 1 + j
      ensures Names(n)[m] != name
    {
      assert Names(n)[m] == c[m - 1];
    }
  }

  /** A first match among the later siblings, with none among the descendants,
      is a first match of the node, past the node and its descendants. */
  lemma FirstAtSibling(n: Node, name: string, j: int)
    requires n.Node? && n.name != name && name !in Names(n.firstChild)
    requires FirstAt(n.nextSibling, name, j)
    ensures FirstAt(n, name, 1 + |Names(n.firstChild)| + j)
  {
    var c, s := Names(n.firstChild), Names(n.nextSibling);
    assert Names(n) == [n.name] + c + s;
    forall m | 0 < m < 1 + |c| + j
      ensures Names(n)[m] != name
    {
      if m <= |c| {
        assert Names(n)[m] == c[m - 1];
      } else {
        assert Names(n)[m] == s[m - 1 - |c|];
      }
    }
  }

  /** Where a position of the search order falls: the node itself, its
      descendants, or its later siblings. */
  lemma SubtreesAt(n: Node, i: int)
    requires n.Node? && 0 < i < |Subtrees(n)|
    ensures var c := |Subtrees(n.firstChild)|;
      && (i <= c ==> Subtrees(n)[i] == Subtrees(n.firstChild)[i - 1])
      && (i > c ==> Subtrees(n)[i] == Subtrees(n.nextSibling)[i - 1 - c])
  {
  }

  /** Only one position is the first to carry a name. */
  lemma FirstAtUnique(n: Node, name: string, i: int, j: int)
    requires FirstAt(n, name, i) && FirstAt(n, name, j)
    ensures i == j
  {
  }

  /** Conversely, the search returns the node at the first position carrying
      `name`, whichever way that position is found. */
  lemma FindNodeRecursiveAt(n: Node, name: string, i: int)
    requires FirstAt(n, name, i)
    ensures FindNodeRecursive(n, name) == Some(Subtrees(n)[i])
  {
    var r := FindNodeRecursive(n, name);
    assert Names(n)[i] in Names(n);
    var k :| FirstAt(n, name, k) && Subtrees(n)[k] == r.value;
    FirstAtUnique(n, name, i, k);
  }

  /** `findNode`: test the root, then search its child chain. A NULL root finds
      nothing. */
  function FindNode(root: Node, name: string): (r: Option<Node>)
    requires root.Nil? || root.nextSibling.Nil?
    ensures r.Some? ==> r.value.Node? && r.value.name == name
    ensures r.Some? ==> exists i :: FirstAt(root, name, i) && Subtrees(root)[i] == r.value
    ensures r.None? <==> name !in Names(root)
  {
    if root.Nil? then None
    else if root.name == name then
      FirstAtHere(root, name);
      Some(root)
    else
      var r := FindNodeRecursive(root.firstChild, name);
      if r.Some? then FirstInChildren(root, name, r.value); r else r
  }

  /** The root-level search is the recursive search started at the root, which
      has no siblings. */
  lemma FindNodeIsRecursive(root: Node, name: string)
    requires root.Nil? || root.nextSibling.Nil?
    ensures FindNode(root, name) == FindNodeRecursive(root, name)
  {
  }

  /** Walk to the end of a sibling chain and link `leaf` there. */
  function AppendSibling(chain: Node, leaf: Node): (r: Node)
    requires leaf.Node? && leaf.nextSibling.Nil?
    ensures Siblings(r) == Siblings(chain) + [leaf]
    ensures Size(r) == Size(chain) + Size(leaf)
    ensures Names(r) == Names(chain) + Names(leaf)
    ensures RemoveLast(r) == chain
  {
    if chain.Nil? then leaf
    else chain.(nextSibling := AppendSibling(chain.nextSibling, leaf))
  }

  /** Unlink the last node of a sibling chain. */
  function RemoveLast(chain: Node): Node {
    if chain.Nil? || chain.nextSibling.Nil? then Nil
    else chain.(nextSibling := RemoveLast(chain.nextSibling))
  }

  /** Undo an `addChild`: the first node named `parent` in search order loses
      its last child; every other node is kept as it is. */
  function DropLastChild(n: Node, parent: string): Node {
    if n.Nil? then n
    else if n.name == parent then n.(firstChild := RemoveLast(n.firstChild))
    else if parent in Names(n.firstChild) then n.(firstChild := DropLastChild(n.firstChild, parent))
    else n.(nextSibling := DropLastChild(n.nextSibling, parent))
  }

  /** The effect of `addChild` on the subtree `n`: the first node named `parent`
      in search order (if any) gets the leaf `child` as its last child. */
  function AddUnder(n: Node, parent: string, child: string): (r: Node)
    ensures parent !in Names(n) ==> r == n
    ensures parent in Names(n) ==> Size(r) == Size(n) + 1
    ensures forall x :: x in Names(n) ==> x in Names(r)
    ensures DropLastChild(r, parent) == n
  {
    if n.Nil? then n
    else if n.name == parent then
      assert Size(Leaf(child)) == 1;
      n.(firstChild := AppendSibling(n.firstChild, Leaf(child)))
    else if parent in Names(n.firstChild) then n.(firstChild := AddUnder(n.firstChild, parent, child))
    else n.(nextSibling := AddUnder(n.nextSibling, parent, child))
  }

  /** Adding a child adds exactly its name to the tree's names and changes no
      other name. */
  lemma {:induction false} AddUnderNames(n: Node, parent: string, child: string)
    requires parent in Names(n)
    ensures multiset(Names(AddUnder(n, parent, child))) == multiset(Names(n)) + multiset{child}
  {
    if n.name == parent {
      AddUnderHere(n, parent, child);
    } else if parent in Names(n.firstChild) {
      AddUnderNames(n.firstChild, parent, child);
      AddUnderBelow(n, parent, child);
    } else {
      AddUnderNames(n.nextSibling, parent, child);
      AddUnderAfter(n, parent, child);
    }
  }

  lemma AddUnderHere(n: Node, parent: string, child: string)
    requires n.Node? && n.name == parent
    ensures multiset(Names(AddUnder(n, parent, child))) == multiset(Names(n)) + multiset{child}
  {
    var r := AddUnder(n, parent, child);
    assert r == n.(firstChild := AppendSibling(n.firstChild, Leaf(child)));
    assert Names(Leaf(child)) == [child];
    NamesSplit(n);
    NamesSplit(r);
  }

  lemma AddUnderBelow(n: Node, parent: string, child: string)
    requires n.Node? && n.name != parent && parent in Names(n.firstChild)
    requires multiset(Names(AddUnder(n.firstChild, parent, child))) == multiset(Names(n.firstChild)) + multiset{child}
    ensures multiset(Names(AddUnder(n, parent, child))) == multiset(Names(n)) + multiset{child}
  {
    var r := AddUnder(n, parent, child);
    assert r == n.(firstChild := AddUnder(n.firstChild, parent, child));
    NamesSplit(n);
    NamesSplit(r);
  }

  lemma AddUnderAfter(n: Node, parent: string, child: string)
    requires n.Node? && n.name != parent && parent !in Names(n.firstChild)
    requires multiset(Names(AddUnder(n.nextSibling, parent, child))) == multiset(Names(n.nextSibling)) + multiset{child}
    ensures multiset(Names(AddUnder(n, parent, child))) == multiset(Names(n)) + multiset{child}
  {
    var r := AddUnder(n, parent, child);
    assert r == n.(nextSibling := AddUnder(n.nextSibling, parent, child));
    NamesSplit(n);
    NamesSplit(r);
  }

  lemma NamesSplit(n: Node)
    ensures n.Node? ==> multiset(Names(n)) == multiset{n.name} + multiset(Names(n.firstChild)) + multiset(Names(n.nextSibling))
  {
    if n.Node? {
      assert Names(n) == [n.name] + Names(n.firstChild) + Names(n.nextSibling);
    }
  }

  /** `addChild`: find the parent (from the root); when it is missing leave the
      tree alone, otherwise append the child as its last sibling. */
  function AddChild(root: Node, parent: string, child: string): (r: Node)
    requires root.Nil? || root.nextSibling.Nil?
    ensures r.Nil? || r.nextSibling.Nil?
    ensures FindNode(root, parent).None? ==> r == root
    ensures FindNode(root, parent).Some? ==> Size(r) == Size(root) + 1
    ensures DropLastChild(r, parent) == root
  {
    match FindNode(root, parent)
    case None => root
    case Some(_) => AddUnder(root, parent, child)
  }

  /** After `addChild`, searching for the parent finds the same node with the new
      leaf appended to its children. */
  lemma {:induction false} AddUnderAppendsChild(n: Node, parent: string, child: string)
    requires FindNodeRecursive(n, parent).Some?
    ensures var p := FindNodeRecursive(n, parent).value;
      var p' := FindNodeRecursive(AddUnder(n, parent, child), parent);
      && p'.Some? && p'.value.name == p.name
      && Children(p'.value) == Children(p) + [Leaf(child)]
  {
    if n.name == parent {
    } else if parent in Names(n.firstChild) {
      AddUnderAppendsChild(n.firstChild, parent, child);
    } else {
      AddUnderAppendsChild(n.nextSibling, parent, child);
    }
  }

  /** `addChild` seen from the root: afterwards `findNode` on the parent's name
      yields the parent with the new leaf as its last child. */
  lemma AddChildAppends(root: Node, parent: string, child: string)
    requires root.Nil? || root.nextSibling.Nil?
    requires FindNode(root, parent).Some?
    ensures var r := AddChild(root, parent, child);
      var p' := FindNode(r, parent);
      && p'.Some? && p'.value.name == parent
      && Children(p'.value) == Children(FindNode(root, parent).value) + [Leaf(child)]
  {
    var r := AddChild(root, parent, child);
    FindNodeIsRecursive(root, parent);
    FindNodeIsRecursive(r, parent);
    AddUnderAppendsChild(root, parent, child);
  }
}
