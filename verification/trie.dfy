/**
  `Trie`: the prefix tree behind citizen-name autocompletion. Each node has 26
  child slots ('a' to 'z'), an end-of-word flag and the word stored there.
  Letters are folded to lower case; `insert` skips any other character while
  `search` and `getSuggestions` give up on one.
 */
module Trie {
  import opened Wrappers
  import LinkedList

  const AlphabetSize: nat := 26
  const MaxSuggestions: nat := 5

  /** `TrieNode`; `Nil` is a NULL child slot. */
  datatype Node = Nil | Node(children: seq<Node>, isEnd: bool, word: string)

  /** Every node has exactly 26 child slots. */
  ghost predicate Valid(n: Node) {
    n.Nil? || (|n.children| == AlphabetSize && forall i :: 0 <= i < |n.children| ==> Valid(n.children[i]))
  }

  /** A fresh `TrieNode`: no children, not the end of a word, empty stored word. */
  function NewNode(): (n: Node)
    ensures Valid(n) && n.Node?
    ensures |n.children| == AlphabetSize && forall i :: 0 <= i < |n.children| ==> n.children[i].Nil?
    ensures !n.isEnd && n.word == ""
  {
    Node(seq(AlphabetSize, _ => Nil), false, "")
  }

  /** Case folding as written: only 'A' to 'Z' move, to 'a' to 'z'. */
  function Fold(c: char): char {
    if 'A' <= c <= 'Z' then (c as int - 'A' as int + 'a' as int) as char else c
  }

  predicate IsLetter(c: char) {
    'a' <= Fold(c) <= 'z'
  }

  /** The child slot a letter selects. */
  function Index(c: char): (i: nat)
    requires IsLetter(c)
    ensures i < AlphabetSize
  {
    Fold(c) as int - 'a' as int
  }

  predicate AllLetters(s: string) {
    forall i :: 0 <= i < |s| ==> IsLetter(s[i])
  }

  /** The path a word follows in `insert`: its letters' slots, other characters dropped. */
  function Key(s: string): (k: seq<nat>)
    ensures forall i :: 0 <= i < |k| ==> k[i] < AlphabetSize
    ensures AllLetters(s) ==> |k| == |s|
  {
    if |s| == 0 then []
    else if IsLetter(s[0]) then [Index(s[0])] + Key(s[1..])
    else Key(s[1..])
  }

  /** Two all-letter strings follow the same path exactly when they agree up to case. */
  lemma {:induction false} KeyCaseInsensitive(s: string, t: string)
    requires AllLetters(s) && AllLetters(t)
    ensures Key(s) == Key(t) <==> |s| == |t| && forall i :: 0 <= i < |s| ==> Fold(s[i]) == Fold(t[i])
  {
    if |s| > 0 && |t| > 0 {
      KeyCaseInsensitive(s[1..], t[1..]);
      assert Key(s) == [Index(s[0])] + Key(s[1..]);
      assert Key(t) == [Index(t[0])] + Key(t[1..]);
      if Key(s) == Key(t) {
        assert Key(s)[1..] == Key(s[1..]) && Key(t)[1..] == Key(t[1..]);
      }
      if |s| == |t| && forall i :: 0 <= i < |s| ==> Fold(s[i]) == Fold(t[i]) {
        assert forall i :: 0 <= i < |s[1..]| ==> Fold(s[1..][i]) == Fold(t[1..][i]) by {
          forall i | 0 <= i < |s[1..]| ensures Fold(s[1..][i]) == Fold(t[1..][i]) {
            assert s[1..][i] == s[i + 1] && t[1..][i] == t[i + 1];
          }
        }
      }
    } else if |s| > 0 {
      assert |Key(s)| > 0;
    } else if |t| > 0 {
      assert |Key(t)| > 0;
    }
  }

  /** The node reached from `n` along `path`, or `Nil` when the path leaves the trie. */
  function Descend(n: Node, path: seq<nat>): Node {
    if |path| == 0 then n
    else if n.Nil? || path[0] >= |n.children| then Nil
    else Descend(n.children[path[0]], path[1..])
  }

  /** The word stored at the end of `path`, if that node ends a word. */
  function Stored(n: Node, path: seq<nat>): Option<string> {
    var m := Descend(n, path);
    if m.Node? && m.isEnd then Some(m.word) else None
  }

  /** `Stored` relative to the node at `prefix`. */
  function StoredUnder(n: Node, prefix: seq<nat>, path: seq<nat>): Option<string> {
    Stored(n, prefix + path)
  }

  lemma {:induction false} DescendAppend(n: Node, p: seq<nat>, q: seq<nat>)
    ensures Descend(n, p + q) == Descend(Descend(n, p), q)
  {
    if |p| > 0 {
      if n.Node? && p[0] < |n.children| {
        DescendAppend(n.children[p[0]], p[1..], q);
        assert (p + q)[1..] == p[1..] + q;
      } else {
        NilStoresNothing(q);
      }
    } else {
      assert p + q == q;
    }
  }

  lemma {:induction false} NilStoresNothing(q: seq<nat>)
    ensures Descend(Nil, q) == Nil
  {
    if |q| > 0 {
      NilStoresNothing(q[1..]);
    }
  }

  lemma NewNodeStoresNothing(q: seq<nat>)
    ensures Stored(NewNode(), q) == None
  {
    if |q| > 0 {
      NilStoresNothing(q[1..]);
    }
  }

  /** `insert`: walk the word, folding case and skipping non-letters, creating
      missing children; mark the final node as the end of a word and store the
      word as given. */
  function Insert(n: Node, rest: string, word: string): (r: Node)
    requires Valid(n) && n.Node?
    ensures Valid(r) && r.Node?
    decreases |rest|
  {
    if |rest| == 0 then n.(isEnd := true, word := word)
    else if !IsLetter(rest[0]) then Insert(n, rest[1..], word)
    else
      var i := Index(rest[0]);
      var child := n.children[i];
      var child' := Insert(if child.Nil? then NewNode() else child, rest[1..], word);
      n.(children := n.children[i := child'])
  }

  /** After `insert`, the word sits at the end of its key, and nothing else that
      is stored changes. */
  lemma {:induction false} InsertStored(n: Node, rest: string, word: string, path: seq<nat>)
    requires Valid(n) && n.Node?
    ensures Stored(Insert(n, rest, word), path) == if path == Key(rest) then Some(word) else Stored(n, path)
    decreases |rest|
  {
    if |rest| == 0 {
    } else if !IsLetter(rest[0]) {
      InsertStored(n, rest[1..], word, path);
    } else {
      var i := Index(rest[0]);
      var child := n.children[i];
      var start := if child.Nil? then NewNode() else child;
      var r := Insert(n, rest, word);
      assert Key(rest) == [i] + Key(rest[1..]);
      if |path| > 0 {
        if path[0] == i {
          InsertStored(start, rest[1..], word, path[1..]);
          if child.Nil? {
            NewNodeStoresNothing(path[1..]);
            NilStoresNothing(path[1..]);
          }
          if path[1..] == Key(rest[1..]) {
            assert path == [i] + path[1..];
          }
        }
      }
    }
  }

  /** The walk shared by `search` and `getSuggestions`: the node at the end of
      `s`, or nothing when `s` holds a non-letter or leaves the trie. */
  function Walk(n: Node, s: string): (r: Option<Node>)
    requires Valid(n) && n.Node?
    ensures r.Some? ==> Valid(r.value) && r.value.Node?
    decreases |s|
  {
    if |s| == 0 then Some(n)
    else if !IsLetter(s[0]) then None
    else
      var child := n.children[Index(s[0])];
      if child.Nil? then None else Walk(child, s[1..])
  }

  lemma {:induction false} WalkDescends(n: Node, s: string)
    requires Valid(n) && n.Node?
    ensures Walk(n, s) == if AllLetters(s) && Descend(n, Key(s)).Node? then Some(Descend(n, Key(s))) else None
    decreases |s|
  {
    if |s| > 0 {
      if IsLetter(s[0]) {
        var child := n.children[Index(s[0])];
        assert Key(s) == [Index(s[0])] + Key(s[1..]);
        assert AllLetters(s) <==> AllLetters(s[1..]) by {
          if AllLetters(s[1..]) {
            forall i | 1 <= i < |s| ensures IsLetter(s[i]) {
              assert s[i] == s[1..][i - 1];
            }
          }
        }
        if child.Nil? {
          NilStoresNothing(Key(s[1..]));
        } else {
          WalkDescends(child, s[1..]);
        }
      }
    }
  }

  /** `search`: true exactly when the walk ends on a node that ends a word. */
  function Search(n: Node, s: string): (found: bool)
    requires Valid(n) && n.Node?
    ensures found <==> AllLetters(s) && Stored(n, Key(s)).Some?
  {
    WalkDescends(n, s);
    match Walk(n, s)
    case Some(m) => m.isEnd
    case None => false
  }

  /** After inserting an all-letter word, searching for it in any case succeeds,
      and every other search answers as before. */
  lemma InsertThenSearch(n: Node, word: string, s: string)
    requires Valid(n) && n.Node?
    requires AllLetters(word) && AllLetters(s)
    requires |s| == |word| && forall i :: 0 <= i < |s| ==> Fold(s[i]) == Fold(word[i])
    ensures Search(Insert(n, word, word), s)
  {
    KeyCaseInsensitive(s, word);
    InsertStored(n, word, word, Key(s));
  }

  lemma InsertOtherSearch(n: Node, word: string, s: string)
    requires Valid(n) && n.Node?
    requires Key(s) != Key(word)
    ensures Search(Insert(n, word, word), s) == Search(n, s)
  {
    InsertStored(n, word, word, Key(s));
  }

  /** `insert` skips a non-letter but `search` stops at it, so a word holding a
      space (a full name, say) is stored yet never found by its own spelling. */
  lemma InsertedNameWithSpaceNotFound(n: Node, word: string)
    requires Valid(n) && n.Node?
    requires ' ' in word
    ensures !Search(Insert(n, word, word), word)
  {
    var i :| 0 <= i < |word| && word[i] == ' ';
    assert !IsLetter(word[i]);
  }

  // ---- suggestions ----

  /** The node's own contribution to a pre-order listing: its word if it ends one.
      `skipEmpty` is the extra guard of the Indonesian copy, which also requires a
      non-empty stored word. */
  function Own(n: Node, skipEmpty: bool): seq<string>
    requires n.Node?
  {
    if n.isEnd && !(skipEmpty && n.word == "") then [n.word] else []
  }

  /** Pre-order listing of the stored words under `n`: the node first, then its
      children from 'a' to 'z'. */
  function Collect(n: Node, skipEmpty: bool): seq<string>
    decreases n, 1, 0
  {
    if n.Nil? then [] else Own(n, skipEmpty) + CollectChildren(n, |n.children|, skipEmpty)
  }

  /** The listings of the first `i` children, in slot order. */
  function CollectChildren(n: Node, i: nat, skipEmpty: bool): seq<string>
    requires n.Node? && i <= |n.children|
    decreases n, 0, i
  {
    if i == 0 then [] else CollectChildren(n, i - 1, skipEmpty) + Collect(n.children[i - 1], skipEmpty)
  }

  /** The first `n` elements, or all of them when there are fewer. */
  function Take(s: seq<string>, n: nat): (r: seq<string>)
    ensures |r| <= n && |r| <= |s| && r == s[..|r|]
    ensures |s| >= n ==> |r| == n
    ensures |s| <= n ==> r == s
  {
    if |s| <= n then s else s[..n]
  }

  lemma TakeTwice(a: seq<string>, b: seq<string>, n: nat)
    ensures Take(Take(a, n) + b, n) == Take(a + b, n)
  {
    if |a| >= n {
      assert (a + b)[..n] == a[..n];
    } else {
      assert Take(a, n) == a;
    }
  }

  /** The names of a suggestion list, in order. */
  function Names(l: LinkedList.List): (r: seq<string>)
    ensures |r| == |l.nodes|
    ensures forall i :: 0 <= i < |r| ==> r[i] == l.nodes[i].name
  {
    seq(|l.nodes|, i requires 0 <= i < |l.nodes| => l.nodes[i].name)
  }

  /** Suggestions are numbered 1, 2, ... and carry no extra data. */
  ghost predicate Numbered(l: LinkedList.List) {
    forall i :: 0 <= i < |l.nodes| ==> l.nodes[i].id == i + 1 && l.nodes[i].data1 == "" && l.nodes[i].data2 == ""
  }

  /** Adding the next numbered suggestion at the tail. */
  function AddSuggestion(l: LinkedList.List, word: string): (r: LinkedList.List)
    requires l.Valid() && Numbered(l)
    ensures r.Valid() && Numbered(r) && |r.nodes| == |l.nodes| + 1
    ensures Names(r) == Names(l) + [word]
  {
    var r := LinkedList.InsertAtTail(l, LinkedList.Node(l.count + 1, word, "", ""));
    assert Names(r) == Names(l) + [word];
    r
  }

  lemma CollectChildrenStep(node: Node, i: nat, base: seq<string>, skipEmpty: bool)
    requires node.Node? && i < |node.children|
    ensures base + CollectChildren(node, i + 1, skipEmpty)
         == (base + CollectChildren(node, i, skipEmpty)) + Collect(node.children[i], skipEmpty)
  {
  }

  /** `getSuggestionsRecursive`: stop at NULL or once five suggestions are in;
      add the node's word (numbered by the running count), then visit the
      children from 'a' to 'z'. The running count is the list's own count. */
  method SuggestionsFrom(node: Node, list: LinkedList.List, skipEmpty: bool) returns (list': LinkedList.List)
    requires Valid(node)
    requires list.Valid() && Numbered(list) && |list.nodes| <= MaxSuggestions
    ensures list'.Valid() && Numbered(list')
    ensures Names(list') == Take(Names(list) + Collect(node, skipEmpty), MaxSuggestions)
    decreases node
  {
    if node.Nil? || list.count >= MaxSuggestions {
      list' := list;
      return;
    }
    list' := list;
    if node.isEnd && !(skipEmpty && node.word == "") {
      list' := AddSuggestion(list', node.word);
    }
    ghost var base := Names(list) + Own(node, skipEmpty);
    assert Names(list') == base;
    var i := 0;
    while i < AlphabetSize
      invariant 0 <= i <= AlphabetSize
      invariant list'.Valid() && Numbered(list') && |list'.nodes| <= MaxSuggestions
      invariant Names(list') == Take(base + CollectChildren(node, i, skipEmpty), MaxSuggestions)
    {
      ghost var before := Names(list');
      var child := node.children[i];
      if child.Node? {
        list' := SuggestionsFrom(child, list', skipEmpty);
      }
      SuggestStep(node, i, base, skipEmpty, before, Names(list'));
      i := i + 1;
    }
    SuggestSplit(node, Names(list), skipEmpty, i);
  }

  /** One child's turn in `getSuggestionsRecursive` extends the capped listing
      by that child's listing. */
  lemma SuggestStep(node: Node, i: nat, base: seq<string>, skipEmpty: bool, before: seq<string>, after: seq<string>)
    requires node.Node? && i < |node.children|
    requires before == Take(base + CollectChildren(node, i, skipEmpty), MaxSuggestions)
    requires node.children[i].Nil? ==> after == before
    requires node.children[i].Node? ==> after == Take(before + Collect(node.children[i], skipEmpty), MaxSuggestions)
    ensures after == Take(base + CollectChildren(node, i + 1, skipEmpty), MaxSuggestions)
  {
    var acc := base + CollectChildren(node, i, skipEmpty);
    var child := node.children[i];
    TakeTwice(acc, Collect(child, skipEmpty), MaxSuggestions);
    CollectChildrenStep(node, i, base, skipEmpty);
    if child.Nil? {
      assert Collect(child, skipEmpty) == [];
      assert before + [] == before;
    }
  }

  lemma SuggestSplit(node: Node, names: seq<string>, skipEmpty: bool, k: nat)
    requires node.Node? && k == |node.children|
    ensures names + Own(node, skipEmpty) + CollectChildren(node, k, skipEmpty) == names + Collect(node, skipEmpty)
  {
    var a, b := Own(node, skipEmpty), CollectChildren(node, k, skipEmpty);
    assert Collect(node, skipEmpty) == a + b;
    assert names + a + b == names + (a + b);
  }

  /** Every word in the pre-order listing is stored somewhere under the node. */
  lemma CollectSound(n: Node, skipEmpty: bool, w: string)
    requires Valid(n) && w in Collect(n, skipEmpty)
    ensures exists path :: Stored(n, path) == Some(w)
    decreases n, 1, 0
  {
    if w in Own(n, skipEmpty) {
      assert Stored(n, []) == Some(w);
    } else {
      CollectChildrenSound(n, |n.children|, skipEmpty, w);
    }
  }

  lemma CollectChildrenSound(n: Node, i: nat, skipEmpty: bool, w: string)
    requires Valid(n) && n.Node? && i <= |n.children| && w in CollectChildren(n, i, skipEmpty)
    ensures exists path :: Stored(n, path) == Some(w)
    decreases n, 0, i
  {
    if w in CollectChildren(n, i - 1, skipEmpty) {
      CollectChildrenSound(n, i - 1, skipEmpty, w);
    } else {
      var child := n.children[i - 1];
      CollectSound(child, skipEmpty, w);
      var path :| Stored(child, path) == Some(w);
      assert ([i - 1] + path)[1..] == path;
      assert Stored(n, [i - 1] + path) == Some(w);
    }
  }

  /** Conversely, every stored word under the node is listed (unless it is the
      empty word and the empty-word guard is on). */
  lemma {:induction false} CollectComplete(n: Node, skipEmpty: bool, path: seq<nat>, w: string)
    requires Valid(n) && Stored(n, path) == Some(w) && !(skipEmpty && w == "")
    ensures w in Collect(n, skipEmpty)
    decreases |path|
  {
    if |path| > 0 {
      var c := path[0];
      var child := n.children[c];
      assert Stored(child, path[1..]) == Some(w);
      CollectComplete(child, skipEmpty, path[1..], w);
      assert w in CollectChildren(n, c + 1, skipEmpty);
      CollectChildrenGrow(n, c + 1, |n.children|, skipEmpty);
      var whole := CollectChildren(n, |n.children|, skipEmpty);
      assert whole[..|CollectChildren(n, c + 1, skipEmpty)|] == CollectChildren(n, c + 1, skipEmpty);
      assert w in whole;
    }
  }

  /** The listing of the first `i` children is a prefix of that of the first `j`. */
  lemma {:induction false} CollectChildrenGrow(n: Node, i: nat, j: nat, skipEmpty: bool)
    requires n.Node? && i <= j <= |n.children|
    ensures CollectChildren(n, i, skipEmpty) <= CollectChildren(n, j, skipEmpty)
    decreases j - i
  {
    if i < j {
      CollectChildrenGrow(n, i, j - 1, skipEmpty);
    }
  }

  /** `getSuggestions`: walk the prefix; an invalid or absent prefix gives an
      empty list, otherwise the first five stored words under its node. */
  method GetSuggestions(root: Node, prefix: string, skipEmpty: bool) returns (list: LinkedList.List)
    requires Valid(root) && root.Node?
    ensures list.Valid() && Numbered(list) && |list.nodes| <= MaxSuggestions
    ensures Walk(root, prefix).None? ==> list.nodes == []
    ensures Walk(root, prefix).Some? ==> Names(list) == Take(Collect(Walk(root, prefix).value, skipEmpty), MaxSuggestions)
    ensures !AllLetters(prefix) ==> list.nodes == []
    ensures forall i :: 0 <= i < |list.nodes| ==> StoredBelow(root, Key(prefix), list.nodes[i].name)
  {
    WalkDescends(root, prefix);
    match Walk(root, prefix)
    case None =>
      list := LinkedList.EmptyList();
      assert |list.nodes| == 0;
    case Some(start) =>
      list := SuggestionsFrom(start, LinkedList.EmptyList(), skipEmpty);
      SuggestedStored(root, Key(prefix), start, Names(list), skipEmpty);
  }

  /** Every suggestion taken from the listing under the prefix node is a word
      stored below the prefix. */
  lemma SuggestedStored(root: Node, p: seq<nat>, start: Node, names: seq<string>, skipEmpty: bool)
    requires Valid(start) && start == Descend(root, p)
    requires names == Take(Collect(start, skipEmpty), MaxSuggestions)
    ensures forall i :: 0 <= i < |names| ==> StoredBelow(root, p, names[i])
  {
    forall i | 0 <= i < |names|
      ensures StoredBelow(root, p, names[i])
    {
      ListedStored(root, p, start, names[i], skipEmpty);
    }
  }

  /** Some path below `p` ends on a node that stores `w`. */
  ghost predicate StoredBelow(root: Node, p: seq<nat>, w: string) {
    exists path :: StoredUnder(root, p, path) == Some(w)
  }

  lemma ListedStored(root: Node, p: seq<nat>, start: Node, w: string, skipEmpty: bool)
    requires Valid(start) && start == Descend(root, p) && w in Collect(start, skipEmpty)
    ensures StoredBelow(root, p, w)
  {
    CollectSound(start, skipEmpty, w);
    var path :| Stored(start, path) == Some(w);
    DescendAppend(root, p, path);
    assert StoredUnder(root, p, path) == Some(w);
  }
}
