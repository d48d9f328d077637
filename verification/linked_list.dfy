/**
  `ManualLinkedList`: a circular doubly-linked list with a sentinel node and an
  explicit `count`. The non-sentinel nodes, walked from `sentinel->next`, are a
  sequence here; the sentinel and the `prev`/`next` pointers are not modelled.
 */
module LinkedList {
  import opened Wrappers

  /** `NodeLL`: an id, a name and two free-form data fields. */
  datatype Node = Node(id: int, name: string, data1: string, data2: string)

  datatype List = List(nodes: seq<Node>, count: int)
  {
    /** `count` equals the number of non-sentinel nodes. */
    ghost predicate Valid() {
      count == |nodes|
    }

    predicate IsEmpty() {
      count == 0
    }
  }

  function EmptyList(): (l: List)
    ensures l.Valid() && l.IsEmpty() && |l.nodes| == 0
  {
    List([], 0)
  }

  /** `insertAtTail`: link the node just before the sentinel. */
  function InsertAtTail(l: List, n: Node): (r: List)
    requires l.Valid()
    ensures r.Valid() && r.count == l.count + 1
    ensures r.nodes[|r.nodes| - 1] == n && r.nodes[..|l.nodes|] == l.nodes
  {
    List(l.nodes + [n], l.count + 1)
  }

  /** `insertAtHead`: link the node just after the sentinel. */
  function InsertAtHead(l: List, n: Node): (r: List)
    requires l.Valid()
    ensures r.Valid() && r.count == l.count + 1
    ensures r.nodes[0] == n && r.nodes[1..] == l.nodes
  {
    List([n] + l.nodes, l.count + 1)
  }

  /** Position of the first node carrying `id`, walking from the head. */
  function FindIndex(nodes: seq<Node>, id: int): (r: Option<nat>)
    ensures r.Some? ==> r.value < |nodes| && nodes[r.value].id == id
    ensures r.Some? ==> forall j :: 0 <= j < r.value ==> nodes[j].id != id
    ensures r.None? ==> forall j :: 0 <= j < |nodes| ==> nodes[j].id != id
  {
    if |nodes| == 0 then None
    else if nodes[0].id == id then Some(0)
    else
      match FindIndex(nodes[1..], id)
      case None => None
      case Some(i) => Some(i + 1)
  }

  /** `findNode`: the first node whose id matches, or NULL. */
  function FindNode(l: List, id: int): (r: Option<Node>)
    ensures r.Some? ==> r.value.id == id && r.value in l.nodes
    ensures r.Some? ==> exists i :: (0 <= i < |l.nodes| && l.nodes[i] == r.value
      && forall j :: 0 <= j < i ==> l.nodes[j].id != id)
    ensures r.None? <==> forall j :: 0 <= j < |l.nodes| ==> l.nodes[j].id != id
  {
    match FindIndex(l.nodes, id)
    case None => None
    case Some(i) => Some(l.nodes[i])
  }

  /** `deleteNode`: unlink the first node carrying `id` and report true, or report
      false and leave the list alone. */
  function DeleteNode(l: List, id: int): (r: (bool, List))
    requires l.Valid()
    ensures r.1.Valid()
    ensures r.0 <==> exists j :: 0 <= j < |l.nodes| && l.nodes[j].id == id
    ensures !r.0 ==> r.1 == l
    ensures r.0 ==> r.1.count == l.count - 1
    ensures r.0 ==> var i := FindIndex(l.nodes, id).value;
      r.1.nodes == l.nodes[..i] + l.nodes[i + 1..]
  {
    match FindIndex(l.nodes, id)
    case None => (false, l)
    case Some(i) => (true, List(l.nodes[..i] + l.nodes[i + 1..], l.count - 1))
  }

  /** Deleting removes exactly one node: the first match. */
  lemma DeleteRemovesOne(l: List, id: int)
    requires l.Valid()
    requires exists j :: 0 <= j < |l.nodes| && l.nodes[j].id == id
    ensures DeleteNode(l, id).0
    ensures multiset(DeleteNode(l, id).1.nodes) + multiset{FindNode(l, id).value} == multiset(l.nodes)
  {
    var i := FindIndex(l.nodes, id).value;
    assert FindNode(l, id) == Some(l.nodes[i]);
    RemoveAt(l.nodes, i);
  }

  lemma RemoveAt(s: seq<Node>, i: nat)
    requires i < |s|
    ensures multiset(s[..i] + s[i + 1..]) + multiset{s[i]} == multiset(s)
  {
    var a, b := s[..i], s[i + 1..];
    assert s == a + [s[i]] + b;
  }

  /** A node inserted at the head is what `findNode` finds for its id. */
  lemma FindAfterInsertAtHead(l: List, n: Node)
    requires l.Valid()
    ensures FindNode(InsertAtHead(l, n), n.id) == Some(n)
  {
  }

  /** A node inserted at the tail is found unless an older node shares its id. */
  lemma FindAfterInsertAtTail(l: List, n: Node)
    requires l.Valid()
    ensures FindNode(l, n.id).None? ==> FindNode(InsertAtTail(l, n), n.id) == Some(n)
    ensures FindNode(l, n.id).Some? ==> FindNode(InsertAtTail(l, n), n.id) == FindNode(l, n.id)
  {
    FindIndexAppend(l.nodes, n, n.id);
  }

  lemma {:induction false} FindIndexAppend(nodes: seq<Node>, n: Node, id: int)
    ensures FindIndex(nodes, id).Some? ==> FindIndex(nodes + [n], id) == FindIndex(nodes, id)
    ensures FindIndex(nodes, id).None? && n.id == id ==> FindIndex(nodes + [n], id) == Some(|nodes|)
  {
    if |nodes| > 0 {
      FindIndexAppend(nodes[1..], n, id);
      assert (nodes + [n])[1..] == nodes[1..] + [n];
    }
  }
}
