/**
 The node selector of src/function/csv_xml.c: counting and picking the nodes of a name in
 document order, and creating the one asked for when there are not enough.

 A node holds its element children, as libxml's child accessors list them, and its text, if
 it has any. The shape of a tree is a ghost value that the methods carry along.
 */
module XmlTree {
  import opened Sequences

  class XmlNode {
    const name: string
    var children: seq<XmlNode>
    var text: Option<string>
    var props: map<string, string>

    constructor (name: string, text: Option<string>)
      ensures this.name == name && this.text == text && children == [] && props == map[]
    {
      this.name := name;
      this.text := text;
      children, props := [], map[];
    }
  }

  /** struct csv_xml_t, as far as it says whether the file has to be written back. */
  class XmlFile {
    var saveFile: bool
  }

  /** A list of sibling trees. */
  datatype Forest = Nil | Cons(node: XmlNode, kids: Forest, rest: Forest)

  /** Document order: a node, then its descendants, then its siblings. */
  ghost function Preorder(f: Forest): seq<XmlNode> {
    match f
    case Nil => []
    case Cons(node, kids, rest) => [node] + Preorder(kids) + Preorder(rest)
  }

  ghost function Nodes(f: Forest): set<XmlNode> {
    match f
    case Nil => {}
    case Cons(node, kids, rest) => {node} + Nodes(kids) + Nodes(rest)
  }

  lemma {:induction false} NodesArePreorder(f: Forest)
    ensures forall x :: x in Nodes(f) <==> x in Preorder(f)
  {
    if f.Cons? {
      NodesArePreorder(f.kids);
      NodesArePreorder(f.rest);
    }
  }

  ghost function Size(f: Forest): nat {
    match f
    case Nil => 0
    case Cons(_, kids, rest) => 1 + Size(kids) + Size(rest)
  }

  /** The children fields hold exactly this forest. */
  ghost predicate Shows(f: Forest, nodes: seq<XmlNode>)
    reads Nodes(f)`children
  {
    match f
    case Nil => nodes == []
    case Cons(node, kids, rest) =>
      && nodes != [] && nodes[0] == node
      && Shows(kids, node.children)
      && Shows(rest, nodes[1..])
  }

  ghost function Tree(p: XmlNode, kids: Forest): Forest {
    Cons(p, kids, Nil)
  }

  /** The nodes of that name, in the same order. */
  ghost function Named(nodes: seq<XmlNode>, name: string): (m: seq<XmlNode>)
    ensures forall x :: x in m ==> x in nodes && x.name == name
    ensures forall x :: x in nodes ==> x.name == name ==> x in m
  {
    if nodes == [] then []
    else (if nodes[0].name == name then [nodes[0]] else []) + Named(nodes[1..], name)
  }

  ghost function Matching(f: Forest, name: string): seq<XmlNode> {
    Named(Preorder(f), name)
  }

  lemma {:induction false} NamedAppend(a: seq<XmlNode>, b: seq<XmlNode>, name: string)
    ensures Named(a + b, name) == Named(a, name) + Named(b, name)
  {
    if a == [] {
      assert a + b == b;
    } else {
      assert (a + b)[1..] == a[1..] + b;
      NamedAppend(a[1..], b, name);
    }
  }

  lemma MatchingCons(node: XmlNode, kids: Forest, rest: Forest, name: string)
    ensures Matching(Cons(node, kids, rest), name)
         == (if node.name == name then [node] else []) + Matching(kids, name) + Matching(rest, name)
  {
    NamedAppend([node] + Preorder(kids), Preorder(rest), name);
    NamedAppend([node], Preorder(kids), name);
    assert Named([node], name) == if node.name == name then [node] else [];
  }

  // ---- Adding a last child ----

  ghost function AddSibling(f: Forest, r: XmlNode): Forest {
    match f
    case Nil => Cons(r, Nil, Nil)
    case Cons(node, kids, rest) => Cons(node, kids, AddSibling(rest, r))
  }

  ghost function AddUnder(f: Forest, x: XmlNode, r: XmlNode): Forest {
    match f
    case Nil => Nil
    case Cons(node, kids, rest) =>
      if node == x then Cons(node, AddSibling(kids, r), rest)
      else Cons(node, AddUnder(kids, x, r), AddUnder(rest, x, r))
  }

  lemma {:induction false} AddSiblingPreorder(f: Forest, r: XmlNode)
    ensures Preorder(AddSibling(f, r)) == Preorder(f) + [r]
  {
    if f.Cons? {
      AddSiblingPreorder(f.rest, r);
    }
  }

  lemma {:induction false} DistinctParts(f: Forest)
    requires f.Cons? && Distinct(Preorder(f))
    ensures Distinct(Preorder(f.kids)) && Distinct(Preorder(f.rest))
    ensures f.node !in Preorder(f.kids) && f.node !in Preorder(f.rest)
    ensures forall x :: x in Preorder(f.kids) ==> x !in Preorder(f.rest)
  {
    var all, kids, rest := Preorder(f), Preorder(f.kids), Preorder(f.rest);
    assert all[0] == f.node;
    assert forall i :: 0 <= i < |kids| ==> kids[i] == all[1 + i];
    assert forall i :: 0 <= i < |rest| ==> rest[i] == all[1 + |kids| + i];
  }

  lemma {:induction false} AddUnderElsewhere(f: Forest, x: XmlNode, r: XmlNode)
    requires x !in Preorder(f)
    ensures AddUnder(f, x, r) == f
  {
    if f.Cons? {
      AddUnderElsewhere(f.kids, x, r);
      AddUnderElsewhere(f.rest, x, r);
    }
  }

  ghost function Inserted(s: seq<XmlNode>, k: nat, r: XmlNode): seq<XmlNode>
    requires k <= |s|
  {
    s[..k] + [r] + s[k..]
  }

  lemma InsertInside(a: seq<XmlNode>, b: seq<XmlNode>, c: seq<XmlNode>, j: nat, r: XmlNode)
    requires j <= |b|
    ensures a + Inserted(b, j, r) + c == Inserted(a + b + c, |a| + j, r)
  {
    var all, k := a + b + c, |a| + j;
    assert all[..k] == a + b[..j];
    assert all[k..] == b[j..] + c;
  }

  lemma InsertDistinct(s: seq<XmlNode>, k: nat, r: XmlNode)
    requires k <= |s| && r !in s && Distinct(s)
    ensures Distinct(Inserted(s, k, r))
  {
    var t := Inserted(s, k, r);
    forall i, j | 0 <= i < j < |t|
      ensures t[i] != t[j]
    {
      assert t[i] == if i < k then s[i] else if i == k then r else s[i - 1];
      assert t[j] == if j < k then s[j] else if j == k then r else s[j - 1];
    }
  }

  lemma InsertMembers(s: seq<XmlNode>, k: nat, r: XmlNode)
    requires k <= |s|
    ensures forall y :: y in Inserted(s, k, r) <==> y == r || y in s
  {
    assert s == s[..k] + s[k..];
  }

  lemma InsertNamed(s: seq<XmlNode>, k: nat, r: XmlNode, name: string)
    requires k <= |s| && r.name != name
    ensures Named(Inserted(s, k, r), name) == Named(s, name)
  {
    assert s == s[..k] + s[k..];
    NamedAppend(s[..k], s[k..], name);
    NamedAppend(s[..k] + [r], s[k..], name);
    NamedAppend(s[..k], [r], name);
    assert Named([r], name) == [];
  }

  /** The new node lands somewhere in document order, and nothing else moves. */
  lemma {:induction false} AddUnderPreorder(f: Forest, x: XmlNode, r: XmlNode) returns (k: nat)
    requires Distinct(Preorder(f)) && x in Preorder(f)
    ensures k <= |Preorder(f)|
    ensures Preorder(AddUnder(f, x, r)) == Inserted(Preorder(f), k, r)
  {
    hide Distinct, Inserted;
    DistinctParts(f);
    var kids, rest := Preorder(f.kids), Preorder(f.rest);
    if f.node == x {
      AddSiblingPreorder(f.kids, r);
      k := 1 + |kids|;
      LastInserted(kids, r);
      InsertInside([f.node], kids, rest, |kids|, r);
    } else if x in kids {
      AddUnderElsewhere(f.rest, x, r);
      var j := AddUnderPreorder(f.kids, x, r);
      k := 1 + j;
      InsertInside([f.node], kids, rest, j, r);
    } else {
      AddUnderElsewhere(f.kids, x, r);
      var j := AddUnderPreorder(f.rest, x, r);
      k := 1 + |kids| + j;
      InsertInside([f.node] + kids, rest, [], j, r);
      assert [f.node] + kids + rest + [] == Preorder(f);
      assert Preorder(AddUnder(f, x, r)) == [f.node] + kids + Inserted(rest, j, r) + [];
    }
  }

  lemma LastInserted(s: seq<XmlNode>, r: XmlNode)
    ensures Inserted(s, |s|, r) == s + [r]
  {
  }

  lemma AddUnderMatching(f: Forest, x: XmlNode, r: XmlNode, name: string)
    requires Distinct(Preorder(f)) && x in Preorder(f) && r !in Preorder(f)
    ensures Distinct(Preorder(AddUnder(f, x, r)))
    ensures forall y :: y in Preorder(AddUnder(f, x, r)) <==> y == r || y in Preorder(f)
    ensures r.name != name ==> Matching(AddUnder(f, x, r), name) == Matching(f, name)
  {
    hide Distinct, Inserted, Preorder, Named;
    var k := AddUnderPreorder(f, x, r);
    InsertDistinct(Preorder(f), k, r);
    InsertMembers(Preorder(f), k, r);
    if r.name != name {
      InsertNamed(Preorder(f), k, r, name);
    }
  }

  lemma AddAtRoot(p: XmlNode, kids: Forest, r: XmlNode)
    ensures AddUnder(Tree(p, kids), p, r) == Tree(p, AddSibling(kids, r))
    ensures Matching(Tree(p, AddSibling(kids, r)), r.name) == Matching(Tree(p, kids), r.name) + [r]
  {
    AddSiblingPreorder(kids, r);
    assert Preorder(Tree(p, AddSibling(kids, r))) == Preorder(Tree(p, kids)) + [r];
    NamedAppend(Preorder(Tree(p, kids)), [r], r.name);
  }

  // ---- Shows, over a snapshot of the children fields ----

  ghost predicate ShowsIn(f: Forest, nodes: seq<XmlNode>, h: map<XmlNode, seq<XmlNode>>) {
    match f
    case Nil => nodes == []
    case Cons(node, kids, rest) =>
      && nodes != [] && nodes[0] == node && node in h
      && ShowsIn(kids, h[node], h)
      && ShowsIn(rest, nodes[1..], h)
  }

  ghost predicate Agrees(h: map<XmlNode, seq<XmlNode>>, s: set<XmlNode>)
    reads s`children
  {
    forall x :: x in s ==> x in h && h[x] == x.children
  }

  ghost function Snapshot(s: set<XmlNode>): (h: map<XmlNode, seq<XmlNode>>)
    reads s`children
    ensures Agrees(h, s)
  {
    map x | x in s :: x.children
  }

  lemma {:induction false} ShowsSnapshot(f: Forest, nodes: seq<XmlNode>, h: map<XmlNode, seq<XmlNode>>)
    requires Agrees(h, Nodes(f))
    ensures Shows(f, nodes) <==> ShowsIn(f, nodes, h)
  {
    if f.Cons? {
      ShowsSnapshot(f.kids, f.node.children, h);
      if nodes != [] {
        ShowsSnapshot(f.rest, nodes[1..], h);
      }
    }
  }

  lemma {:induction false} ShowsInElsewhere(f: Forest, nodes: seq<XmlNode>, h: map<XmlNode, seq<XmlNode>>, h': map<XmlNode, seq<XmlNode>>)
    requires ShowsIn(f, nodes, h)
    requires forall y :: y in Nodes(f) && y in h ==> y in h' && h'[y] == h[y]
    ensures ShowsIn(f, nodes, h')
  {
    if f.Cons? {
      ShowsInElsewhere(f.kids, h[f.node], h, h');
      ShowsInElsewhere(f.rest, nodes[1..], h, h');
    }
  }

  lemma {:induction false} AddSiblingShows(f: Forest, nodes: seq<XmlNode>, r: XmlNode, h: map<XmlNode, seq<XmlNode>>)
    requires ShowsIn(f, nodes, h) && r in h && h[r] == []
    ensures ShowsIn(AddSibling(f, r), nodes + [r], h)
  {
    if f.Cons? {
      AddSiblingShows(f.rest, nodes[1..], r, h);
      assert (nodes + [r])[1..] == nodes[1..] + [r];
    } else {
      assert nodes + [r] == [r];
    }
  }

  lemma {:induction false} AddUnderShows(f: Forest, nodes: seq<XmlNode>, x: XmlNode, r: XmlNode, h: map<XmlNode, seq<XmlNode>>)
    requires ShowsIn(f, nodes, h) && Distinct(Preorder(f)) && x in h && r !in Preorder(f)
    ensures ShowsIn(AddUnder(f, x, r), nodes, h[x := h[x] + [r]][r := []])
  {
    hide Distinct;
    var h' := h[x := h[x] + [r]][r := []];
    if f.Cons? {
      DistinctParts(f);
      NodesArePreorder(f.kids);
      NodesArePreorder(f.rest);
      assert forall y :: y in Preorder(f.kids) || y in Preorder(f.rest) ==> y in Preorder(f);
      if f.node == x {
        ShowsInElsewhere(f.kids, h[x], h, h');
        AddSiblingShows(f.kids, h[x], r, h');
        ShowsInElsewhere(f.rest, nodes[1..], h, h');
      } else {
        AddUnderShows(f.kids, h[f.node], x, r, h);
        AddUnderShows(f.rest, nodes[1..], x, r, h);
      }
    }
  }

  lemma {:induction false} PreorderAllocated(f: Forest)
    ensures forall y :: y in Preorder(f) ==> allocated(y)
    ensures forall y :: y in Nodes(f) ==> allocated(y)
  {
    if f.Cons? {
      PreorderAllocated(f.kids);
      PreorderAllocated(f.rest);
    }
  }

  /** xmlNewChild */
  method NewChild(x: XmlNode, name: string, text: Option<string>, ghost f: Forest, ghost nodes: seq<XmlNode>)
    returns (r: XmlNode)
    requires Shows(f, nodes) && Distinct(Preorder(f)) && x in Preorder(f)
    modifies x`children
    ensures fresh(r) && r.name == name && r.text == text && r.children == [] && r.props == map[]
    ensures x.children == old(x.children) + [r]
    ensures Shows(AddUnder(f, x, r), nodes)
  {
    hide Preorder, Nodes, Shows, ShowsIn, Distinct;
    ghost var h := Snapshot(Nodes(f));
    PreorderAllocated(f);
    NodesArePreorder(f);
    ShowsSnapshot(f, nodes, h);
    r := new XmlNode(name, text);
    x.children := x.children + [r];
    AddUnderShows(f, nodes, x, r, h);
    PreorderAllocated(AddUnder(f, x, r));
    ghost var h': map<XmlNode, seq<XmlNode>> := h[x := h[x] + [r]][r := []];
    NodesArePreorder(AddUnder(f, x, r));
    AddUnderMatching(f, x, r, name);
    ShowsSnapshot(AddUnder(f, x, r), nodes, h');
  }

  // ---- Counting and picking ----

  lemma ShowsFirst(f: Forest, nodes: seq<XmlNode>, all: seq<XmlNode>, j: nat)
    requires j < |all| && nodes == all[j..] && Shows(f, nodes)
    ensures f.Cons? && f.node == all[j] && Shows(f.kids, all[j].children) && Shows(f.rest, all[j + 1..])
    ensures Size(f) == 1 + Size(f.kids) + Size(f.rest) && f == Cons(all[j], f.kids, f.rest)
  {
    assert nodes[1..] == all[j + 1..];
  }

  lemma ShowsNone(f: Forest, nodes: seq<XmlNode>, name: string)
    requires Shows(f, nodes) && nodes == []
    ensures f == Nil && Matching(f, name) == []
  {
  }

  /** xml_get_num_nodes counts the nodes of that name at and below p. */
  method GetNumNodes(p: XmlNode?, name: string, ghost kids: Forest) returns (num: nat)
    requires p != null ==> Shows(kids, p.children)
    ensures num == if p == null then 0 else |Matching(Tree(p, kids), name)|
    decreases Size(kids)
  {
    if p == null {
      return 0;
    }
    hide Shows, Size, Matching;
    num := if p.name == name then 1 else 0;
    MatchingRoot(p, kids, name);
    ghost var rest := kids;
    assert p.children[0..] == p.children;
    var j := 0;
    while j < |p.children|
      invariant j <= |p.children| && Shows(rest, p.children[j..])
      invariant Size(rest) <= Size(kids)
      invariant num + |Matching(rest, name)| == |Matching(Tree(p, kids), name)|
    {
      var cur := p.children[j];
      ShowsFirst(rest, p.children[j..], p.children, j);
      PreorderAllocated(rest.rest);
      var count := GetNumNodes(cur, name, rest.kids);
      MatchingRoot(cur, rest.kids, name);
      MatchingCons(cur, rest.kids, rest.rest, name);
      num := num + count;
      rest := rest.rest;
      j := j + 1;
    }
    ShowsNone(rest, p.children[j..], name);
  }

  lemma MatchingRoot(p: XmlNode, kids: Forest, name: string)
    ensures Matching(Tree(p, kids), name) == (if p.name == name then [p] else []) + Matching(kids, name)
  {
    MatchingCons(p, kids, Nil, name);
  }

  ghost function Under(p: XmlNode?, kids: Forest): set<XmlNode> {
    if p == null then {} else Nodes(Tree(p, kids))
  }

  lemma RootFacts(p: XmlNode, kids: Forest)
    requires Shows(kids, p.children)
    ensures Shows(Tree(p, kids), [p]) && p in Preorder(Tree(p, kids)) && p in Under(p, kids)
    ensures Under(p, kids) == Nodes(Tree(p, kids)) && forall y :: y in Under(p, kids) ==> allocated(y)
  {
    assert [p][1..] == [];
    PreorderAllocated(Tree(p, kids));
  }

  lemma ChildFacts(p: XmlNode, kids: Forest, rest: Forest)
    requires Distinct(Preorder(Tree(p, kids))) && rest.Cons?
    requires Nodes(rest) <= Nodes(kids) && Distinct(Preorder(rest))
    ensures Distinct(Preorder(Tree(rest.node, rest.kids))) && Distinct(Preorder(rest.rest))
    ensures Under(rest.node, rest.kids) <= Under(p, kids) && Nodes(rest.rest) <= Nodes(kids)
  {
    DistinctParts(rest);
    var t, k := Preorder(Tree(rest.node, rest.kids)), Preorder(rest.kids);
    assert t == [rest.node] + k;
  }

  /** No node of s, but for one perhaps, gains or loses a child. */
  twostate predicate SameChildren(s: set<XmlNode>, but: XmlNode?)
    reads s
  {
    forall x :: x in s && x != but ==> x.children == old(x.children)
  }

  /**
   xml_get_node: the node of that name that stands at `index` in document order, counting
   p itself. If there are not that many, p gains one child of that name, which is returned.
   */
  method GetNode(file: XmlFile, p: XmlNode?, name: string, index: nat, ghost kids: Forest)
    returns (r: XmlNode?)
    requires p != null ==> Shows(kids, p.children) && Distinct(Preorder(Tree(p, kids)))
    modifies file, Under(p, kids)`children
    ensures p == null ==> r == null && unchanged(file)
    ensures p != null && index < |Matching(Tree(p, kids), name)| ==>
      r == Matching(Tree(p, kids), name)[index] && unchanged(file) && SameChildren(Under(p, kids), null)
    ensures p != null && index >= |Matching(Tree(p, kids), name)| ==>
      r != null && fresh(r) && r.name == name && r.children == [] && r.text == None && r.props == map[]
    ensures p != null && index >= |Matching(Tree(p, kids), name)| ==>
      && file.saveFile && SameChildren(Under(p, kids), p)
      && p.children == old(p.children) + [r] && Shows(AddSibling(kids, r), p.children)
    decreases Size(kids)
  {
    hide Shows, Size, Matching, Distinct, Preorder, Nodes, Under, AddSibling, AddUnder;
    if p == null {
      return null;
    }
    var i := index;
    MatchingRoot(p, kids, name);
    RootFacts(p, kids);
    ghost var all := Matching(Tree(p, kids), name);
    ghost var passed := [];
    if p.name == name {
      if i == 0 {
        return p;
      } else {
        i := i - 1;
        passed := [p];
      }
    }
    KidsDistinct(p, kids);
    ghost var rest := kids;
    assert p.children[0..] == p.children;
    assert all == passed + Matching(rest, name);
    var j := 0;
    while j < |p.children|
      invariant j <= |p.children| && Shows(rest, p.children[j..])
      invariant Size(rest) <= Size(kids) && Distinct(Preorder(rest)) && Nodes(rest) <= Nodes(kids)
      invariant all == passed + Matching(rest, name) && |passed| + i == index
      invariant unchanged(file) && SameChildren(Under(p, kids), null)
    {
      var cur := p.children[j];
      ShowsFirst(rest, p.children[j..], p.children, j);
      ChildFacts(p, kids, rest);
      PreorderAllocated(rest.rest);
      PreorderAllocated(rest.kids);
      MatchingTwo(cur, rest.kids, rest.rest, name);
      var count := GetNumNodes(cur, name, rest.kids);
      if count > i {
        r := GetNode(file, cur, name, i, rest.kids);
        return;
      } else {
        i := i - count;
        passed := passed + Matching(Tree(cur, rest.kids), name);
      }
      rest := rest.rest;
      j := j + 1;
    }
    ShowsNone(rest, p.children[j..], name);
    file.saveFile := true;
    r := NewChild(p, name, None, Tree(p, kids), [p]);
    AddAtRoot(p, kids, r);
    ShowsKids(p, AddSibling(kids, r), [p]);
  }

  lemma ShowsKids(p: XmlNode, kids: Forest, nodes: seq<XmlNode>)
    requires Shows(Tree(p, kids), nodes)
    ensures Shows(kids, p.children)
  {
  }

  lemma KidsDistinct(p: XmlNode, kids: Forest)
    requires Distinct(Preorder(Tree(p, kids)))
    ensures Distinct(Preorder(kids)) && p !in Preorder(kids)
  {
    DistinctParts(Tree(p, kids));
  }

  lemma MatchingTwo(p: XmlNode, kids: Forest, rest: Forest, name: string)
    ensures Matching(Cons(p, kids, rest), name) == Matching(Tree(p, kids), name) + Matching(rest, name)
  {
    MatchingCons(p, kids, rest, name);
    MatchingRoot(p, kids, name);
  }

  // ---- Fields of a node ----

  datatype Pair = Pair(key: string, value: string)
  datatype Mode = Get | Set

  const MAX_PAIRS := 32
  const TOTAL_DLP_CMDS := 4
  const DLP := "DlpAttribute"

  function FirstNamed(nodes: seq<XmlNode>, key: string): (c: XmlNode?)
    ensures c == null ==> forall x :: x in nodes ==> x.name != key
    ensures c != null ==> c in nodes && c.name == key
  {
    if nodes == [] then null else if nodes[0].name == key then nodes[0] else FirstNamed(nodes[1..], key)
  }

  lemma {:induction false} FirstNamedStays(nodes: seq<XmlNode>, more: seq<XmlNode>, key: string)
    ensures FirstNamed(nodes, key) != null ==> FirstNamed(nodes + more, key) == FirstNamed(nodes, key)
    ensures FirstNamed(nodes, key) == null ==> FirstNamed(nodes + more, key) == FirstNamed(more, key)
  {
    if nodes == [] {
      assert nodes + more == more;
    } else {
      assert (nodes + more)[1..] == nodes[1..] + more;
      FirstNamedStays(nodes[1..], more, key);
    }
  }

  ghost predicate HasKeys(children: seq<XmlNode>, pairs: seq<Pair>) {
    forall i :: 0 <= i < |pairs| ==> FirstNamed(children, pairs[i].key) != null
  }

  lemma HasKeysStays(nodes: seq<XmlNode>, more: seq<XmlNode>, pairs: seq<Pair>)
    requires HasKeys(nodes, pairs)
    ensures HasKeys(nodes + more, pairs)
  {
    forall i | 0 <= i < |pairs|
      ensures FirstNamed(nodes + more, pairs[i].key) != null
    {
      FirstNamedStays(nodes, more, pairs[i].key);
    }
  }

  method FindChild(x: XmlNode, key: string) returns (c: XmlNode?)
    ensures c == FirstNamed(x.children, key)
  {
    var j := 0;
    assert x.children[0..] == x.children;
    while j < |x.children|
      invariant j <= |x.children| && FirstNamed(x.children[j..], key) == FirstNamed(x.children, key)
    {
      assert x.children[j..][1..] == x.children[j + 1..];
      if x.children[j].name == key {
        return x.children[j];
      }
      j := j + 1;
    }
    return null;
  }

  ghost predicate Good(f: Forest, nodes: seq<XmlNode>)
    reads Nodes(f)`children
  {
    Shows(f, nodes) && Distinct(Preorder(f))
  }

  lemma GoodFacts(f: Forest, nodes: seq<XmlNode>)
    ensures forall y :: y in Nodes(f) <==> y in Preorder(f)
    ensures forall y :: y in Nodes(f) ==> allocated(y)
    ensures forall y :: y in Preorder(f) ==> allocated(y)
  {
    NodesArePreorder(f);
    PreorderAllocated(f);
  }

  /** What the forest is after some node gained a last child r. */
  ghost predicate Grown(f: Forest, f': Forest, r: XmlNode) {
    && (forall y :: y in Nodes(f) ==> y in Nodes(f'))
    && (forall y :: y in Nodes(f') ==> y in Nodes(f) || y == r)
    && (forall name :: name != r.name ==> Matching(f', name) == Matching(f, name))
  }

  lemma OneMoreChild(children: seq<XmlNode>, r: XmlNode)
    ensures forall key :: FirstNamed(children, key) != null ==> FirstNamed(children + [r], key) == FirstNamed(children, key)
    ensures forall key :: FirstNamed(children, key) == null ==>
      FirstNamed(children + [r], key) == if r.name == key then r else null
  {
    forall key
      ensures FirstNamed(children + [r], key)
        == if FirstNamed(children, key) != null then FirstNamed(children, key) else if r.name == key then r else null
    {
      FirstNamedStays(children, [r], key);
      assert FirstNamed([r], key) == if r.name == key then r else FirstNamed([r][1..], key);
    }
  }

  /** xmlNodeSetContent on the first child of that name. */
  method SetText(x: XmlNode, c: XmlNode, text: string, ghost f: Forest, ghost nodes: seq<XmlNode>)
    requires Good(f, nodes) && x in Nodes(f) && FirstNamed(x.children, c.name) == c
    modifies c`text
    ensures c.text == Some(text)
    ensures ContentsOf(x) == old(ContentsOf(x))[c.name := Present(Some(text))]
    ensures SameContents(Nodes(f), x)
  {
    hide Good, Nodes, FirstNamed;
    GoodFacts(f, nodes);
    OnlyParent(f, nodes, x);
    ChildrenIn(f, nodes);
    c.text := Some(text);
  }

  method NewField(x: XmlNode, key: string, text: Option<string>, ghost f: Forest, ghost nodes: seq<XmlNode>)
    returns (r: XmlNode, ghost f': Forest)
    requires Good(f, nodes) && x in Nodes(f)
    modifies x`children
    ensures fresh(r) && r.name == key && r.text == text && r.children == [] && r.props == map[]
    ensures x.children == old(x.children) + [r]
    ensures Good(f', nodes) && Grown(f, f', r)
    ensures old(FirstNamed(x.children, key)) == null ==> ContentsOf(x) == old(ContentsOf(x))[key := Present(text)]
    ensures SameContents(Nodes(f), x)
  {
    hide Shows, Distinct, Preorder, Nodes, AddUnder, Matching;
    GoodFacts(f, nodes);
    ChildrenIn(f, nodes);
    r := NewChild(x, key, text, f, nodes);
    OneMoreChild(old(x.children), r);
    f' := AddUnder(f, x, r);
    AddUnderMatching(f, x, r, key);
    forall name | name != key
      ensures Matching(f', name) == Matching(f, name)
    {
      AddUnderMatching(f, x, r, name);
    }
    GoodFacts(f', nodes);
  }

  // ---- What the fields of a node say ----

  /** The first child of a name, if there is one, has a text or none. */
  datatype Content = Absent | Present(text: Option<string>)

  /** For every name. */
  type Contents = v: imap<string, Content> | forall key :: key in v ghost witness imap key: string | true :: Absent

  ghost const NO_CONTENTS: Contents := imap key: string | true :: Absent

  ghost function ContentsOf(x: XmlNode): Contents
    reads x`children, x.children`text
  {
    imap key: string | true :: ContentOf(x.children, key)
  }

  function ContentOf(children: seq<XmlNode>, key: string): Content
    reads children`text
  {
    var c := FirstNamed(children, key);
    if c == null then Absent else Present(c.text)
  }

  /** The fields of the other nodes say what they said. */
  twostate predicate SameContents(s: set<XmlNode>, new but: XmlNode)
    reads *
  {
    forall y :: y in s && y != but ==> ContentsOf(y) == old(ContentsOf(y))
  }

  twostate predicate AllSame(s: set<XmlNode>)
    reads *
  {
    forall y :: y in s ==> ContentsOf(y) == old(ContentsOf(y))
  }

  /** The same, but for the fields of one name. */
  twostate predicate SameContentsBut(s: set<XmlNode>, name: string, new but: XmlNode)
    reads *
  {
    forall y, key :: y in s && y != but && key != name ==> ContentsOf(y)[key] == old(ContentsOf(y))[key]
  }

  /** What the fields of the node of that name at the index say; none yet if it has to be created. */
  ghost function Found(f: Forest, name: string, index: nat): Contents
    reads *
  {
    FoundIn(Matching(f, name), index)
  }

  ghost function FoundIn(m: seq<XmlNode>, index: nat): Contents
    reads *
  {
    if index < |m| then ContentsOf(m[index]) else NO_CONTENTS
  }

  /** A field after it has been read or set. */
  function After(mode: Mode, c: Content, value: string): Content {
    match c
    case Absent => Present(Initial(value, mode))
    case Present(text) => Present(if mode == Set && text.Some? && value != "" then Some(value) else text)
  }

  /** The value that the caller has then. */
  function Answer(mode: Mode, c: Content, value: string): string {
    if mode == Get && c.Present? && c.text.Some? then c.text.value else value
  }

  ghost function Filled(v: Contents, pairs: seq<Pair>, mode: Mode): Contents {
    if pairs == [] then v
    else
      var w, last := Filled(v, pairs[..|pairs| - 1], mode), pairs[|pairs| - 1];
      w[last.key := After(mode, w[last.key], last.value)]
  }

  ghost function Answers(v: Contents, pairs: seq<Pair>, mode: Mode): (a: seq<string>)
    ensures |a| == |pairs|
  {
    if pairs == [] then []
    else
      var init, last := pairs[..|pairs| - 1], pairs[|pairs| - 1];
      Answers(v, init, mode) + [Answer(mode, Filled(v, init, mode)[last.key], last.value)]
  }

  lemma FilledSnoc(v: Contents, pairs: seq<Pair>, i: nat, mode: Mode)
    requires i < |pairs|
    ensures var w := Filled(v, pairs[..i], mode);
      Filled(v, pairs[..i + 1], mode) == w[pairs[i].key := After(mode, w[pairs[i].key], pairs[i].value)]
    ensures Answers(v, pairs[..i + 1], mode)
      == Answers(v, pairs[..i], mode) + [Answer(mode, Filled(v, pairs[..i], mode)[pairs[i].key], pairs[i].value)]
  {
    assert pairs[..i + 1][..i] == pairs[..i];
  }

  predicate DistinctKeys(pairs: seq<Pair>) {
    forall i, j :: 0 <= i < j < |pairs| ==> pairs[i].key != pairs[j].key
  }

  lemma {:induction false} FilledElsewhere(v: Contents, pairs: seq<Pair>, mode: Mode, key: string)
    requires !Mentions(pairs, key)
    ensures Filled(v, pairs, mode)[key] == v[key]
    decreases |pairs|
  {
    if pairs != [] {
      assert pairs[|pairs| - 1].key != key;
      FilledElsewhere(v, pairs[..|pairs| - 1], mode, key);
    }
  }

  /** With a key for each, every pair sees to its own field and to no other. */
  lemma {:induction false} FilledAt(v: Contents, pairs: seq<Pair>, mode: Mode, i: nat)
    requires DistinctKeys(pairs) && i < |pairs|
    ensures Filled(v, pairs, mode)[pairs[i].key] == After(mode, v[pairs[i].key], pairs[i].value)
    ensures Answers(v, pairs, mode)[i] == Answer(mode, v[pairs[i].key], pairs[i].value)
    decreases |pairs|
  {
    hide After, Answer;
    var init, last := pairs[..|pairs| - 1], pairs[|pairs| - 1];
    if i == |pairs| - 1 {
      FilledElsewhere(v, init, mode, last.key);
    } else {
      FilledAt(v, init, mode, i);
      assert init[i].key != last.key;
    }
  }

  /** What is read of a field after it was set: what was given, unless that is empty or there is no text to replace. */
  function ReadAfterSet(c: Content, given: string, asked: string): string {
    match c
    case Absent => (if given != "" then given else asked)
    case Present(None) => asked
    case Present(Some(text)) => (if given != "" then given else text)
  }

  lemma ReadsWhatWasSet(v: Contents, given: seq<Pair>, asked: seq<Pair>, i: nat)
    requires DistinctKeys(given) && |asked| == |given| && (forall j :: 0 <= j < |given| ==> asked[j].key == given[j].key) && i < |given|
    ensures Answers(Filled(v, given, Set), asked, Get)[i] == ReadAfterSet(v[given[i].key], given[i].value, asked[i].value)
  {
    hide Filled, Answers;
    FilledAt(v, given, Set, i);
    FilledAt(Filled(v, given, Set), asked, Get, i);
  }

  ghost function Just(c: XmlNode?): set<XmlNode> {
    if c == null then {} else {c}
  }

  /** The text a missing child is created with: reading stores "0" for no value. */
  function Initial(value: string, mode: Mode): Option<string> {
    if value != "" then Some(value) else if mode == Get then Some("0") else None
  }

  /**
   One round of xml_get_node_data or xml_set_node_data. The first child of that name is
   read, or its text replaced if it has any and the value is not empty; a missing child is
   created.
   */
  method Field(file: XmlFile, x: XmlNode, pair: Pair, mode: Mode, ghost f: Forest, ghost nodes: seq<XmlNode>)
    returns (value: string, ghost f': Forest, ghost r: XmlNode?)
    requires Good(f, nodes) && x in Nodes(f)
    modifies file, x`children, Just(FirstNamed(x.children, pair.key))`text
    ensures Good(f', nodes)
    ensures r == FirstNamed(x.children, pair.key) != null
    ensures old(FirstNamed(x.children, pair.key)) != null ==>
      && f' == f && unchanged(file) && x.children == old(x.children) && r == old(FirstNamed(x.children, pair.key))
      && value == (if mode == Get && old(r.text).Some? then old(r.text).value else pair.value)
      && r.text == (if mode == Set && old(r.text).Some? && pair.value != "" then Some(pair.value) else old(r.text))
    ensures old(FirstNamed(x.children, pair.key)) == null ==>
      && file.saveFile && value == pair.value && fresh(r) && x.children == old(x.children) + [r]
      && r.name == pair.key && r.text == Initial(pair.value, mode) && Grown(f, f', r)
    ensures SameContents(Nodes(f), x)
    ensures value == Answer(mode, old(ContentOf(x.children, pair.key)), pair.value)
    ensures ContentsOf(x) == old(ContentsOf(x))[pair.key := After(mode, old(ContentOf(x.children, pair.key)), pair.value)]
  {
    hide Good, Nodes, Matching, Grown, ContentsOf;
    value, f' := pair.value, f;
    GoodFacts(f, nodes);
    ContentsHas(x, pair.key);
    var cur := FindChild(x, pair.key);
    if cur == null {
      cur, f' := NewField(x, pair.key, Initial(pair.value, mode), f, nodes);
      OneMoreChild(old(x.children), cur);
      GoodFacts(f', nodes);
      file.saveFile := true;
    } else if cur.text.Some? {
      if mode == Get {
        value := cur.text.value;
      } else if pair.value != "" {
        SetText(x, cur, pair.value, f, nodes);
      }
    }
    r := cur;
  }

  lemma ContentsHas(x: XmlNode, key: string)
    ensures ContentsOf(x)[key] == ContentOf(x.children, key)
    ensures ContentsOf(x)[key := ContentOf(x.children, key)] == ContentsOf(x)
  {
  }

  /**
   Setting a value and reading it back gives the value, but for two cases: an empty value
   does not replace a text, and a child without text keeps none, whatever is set.
   */
  method SetThenGet(file: XmlFile, x: XmlNode, key: string, value: string, held: string, ghost f: Forest, ghost nodes: seq<XmlNode>)
    returns (got: string)
    requires Good(f, nodes) && x in Nodes(f)
    modifies file, x`children, Just(FirstNamed(x.children, key))`text
    ensures var c := old(FirstNamed(x.children, key));
      got == if c != null && old(c.text).None? then held
             else if value != "" then value
             else if c == null then held
             else old(c.text).value
  {
    hide Good, Nodes, Grown;
    ghost var c := FirstNamed(x.children, key);
    var stored;
    ghost var f', r;
    stored, f', r := Field(file, x, Pair(key, value), Set, f, nodes);
    if c == null {
      GrownHas(f, f', r, x);
    }
    got, f', r := Field(file, x, Pair(key, held), Get, f', nodes);
  }

  lemma GrownHas(f: Forest, f': Forest, r: XmlNode, x: XmlNode)
    requires Grown(f, f', r) && x in Nodes(f)
    ensures x in Nodes(f')
  {
  }

  lemma {:induction false} ChildIn(f: Forest, nodes: seq<XmlNode>, x: XmlNode, c: XmlNode)
    requires Shows(f, nodes) && x in Nodes(f) && c in x.children
    ensures c in Nodes(f)
  {
    if x == f.node {
      TopIn(f.kids, x.children, c);
    } else if x in Nodes(f.kids) {
      ChildIn(f.kids, f.node.children, x, c);
    } else {
      ChildIn(f.rest, nodes[1..], x, c);
    }
  }

  lemma ChildrenIn(f: Forest, nodes: seq<XmlNode>)
    requires Good(f, nodes)
    ensures forall y, c :: y in Nodes(f) && c in y.children ==> c in Nodes(f) && allocated(c)
  {
    GoodFacts(f, nodes);
    forall y, c | y in Nodes(f) && c in y.children
      ensures c in Nodes(f)
    {
      ChildIn(f, nodes, y, c);
    }
  }

  lemma {:induction false} TopIn(f: Forest, nodes: seq<XmlNode>, c: XmlNode)
    requires Shows(f, nodes) && c in nodes
    ensures c in Nodes(f)
  {
    if c != nodes[0] {
      TopIn(f.rest, nodes[1..], c);
    }
  }

  /** The children of a node of a list are not in the list. */
  lemma {:induction false} ChildNotTop(f: Forest, nodes: seq<XmlNode>, x: XmlNode, c: XmlNode)
    requires Good(f, nodes) && x in Nodes(f) && c in x.children
    ensures c !in nodes
  {
    Apart(f);
    if c in nodes[1..] {
      TopIn(f.rest, nodes[1..], c);
    }
    if x == f.node {
      TopIn(f.kids, f.node.children, c);
    } else if x in Nodes(f.kids) {
      ChildIn(f.kids, f.node.children, x, c);
    } else {
      ChildIn(f.rest, nodes[1..], x, c);
      ChildNotTop(f.rest, nodes[1..], x, c);
    }
  }

  /** A node, those below it and those beside it. */
  lemma Apart(f: Forest)
    requires f.Cons? && Distinct(Preorder(f))
    ensures f.node !in Nodes(f.kids) && f.node !in Nodes(f.rest) && Nodes(f.kids) !! Nodes(f.rest)
    ensures Distinct(Preorder(f.kids)) && Distinct(Preorder(f.rest))
  {
    hide Distinct, Preorder, Nodes;
    DistinctParts(f);
    NodesArePreorder(f.kids);
    NodesArePreorder(f.rest);
    SetsApart(f.node, Nodes(f.kids), Nodes(f.rest), Preorder(f.kids), Preorder(f.rest));
  }

  lemma SetsApart(x: XmlNode, s: set<XmlNode>, t: set<XmlNode>, a: seq<XmlNode>, b: seq<XmlNode>)
    requires (forall y :: y in s <==> y in a) && forall y :: y in t <==> y in b
    requires x !in a && x !in b && forall y :: y in a ==> y !in b
    ensures x !in s && x !in t && s !! t
  {
  }

  /** A node is the child of one node only. */
  lemma {:induction false} OneParent(f: Forest, nodes: seq<XmlNode>, x: XmlNode, y: XmlNode, c: XmlNode)
    requires Good(f, nodes) && x in Nodes(f) && y in Nodes(f) && c in x.children && c in y.children
    ensures x == y
  {
    Apart(f);
    hide Preorder, Distinct;
    if x == f.node && y in Nodes(f.kids) {
      ChildNotTop(f.kids, f.node.children, y, c);
    } else if y == f.node && x in Nodes(f.kids) {
      ChildNotTop(f.kids, f.node.children, x, c);
    } else if x != f.node || y != f.node {
      WhereChildIs(f, nodes, x, c);
      WhereChildIs(f, nodes, y, c);
      if x in Nodes(f.kids) && y in Nodes(f.kids) {
        OneParent(f.kids, f.node.children, x, y, c);
      } else if x in Nodes(f.rest) && y in Nodes(f.rest) {
        OneParent(f.rest, nodes[1..], x, y, c);
      }
    }
  }

  lemma WhereChildIs(f: Forest, nodes: seq<XmlNode>, x: XmlNode, c: XmlNode)
    requires Good(f, nodes) && x in Nodes(f) && c in x.children
    ensures x in Nodes(f.rest) ==> c in Nodes(f.rest)
    ensures x !in Nodes(f.rest) ==> c in Nodes(f.kids)
  {
    if x in Nodes(f.rest) {
      ChildIn(f.rest, nodes[1..], x, c);
    } else if x == f.node {
      TopIn(f.kids, f.node.children, c);
    } else {
      ChildIn(f.kids, f.node.children, x, c);
    }
  }

  lemma OnlyParent(f: Forest, nodes: seq<XmlNode>, x: XmlNode)
    requires Good(f, nodes) && x in Nodes(f)
    ensures forall y, c :: y in Nodes(f) && y != x && c in y.children ==> c !in x.children
  {
    hide Good, Nodes;
    forall y, c | y in Nodes(f) && y != x && c in y.children
      ensures c !in x.children
    {
      if c in x.children {
        OneParent(f, nodes, x, y, c);
      }
    }
  }

  // ---- The fields of the node that was picked ----

  predicate Mentions(pairs: seq<Pair>, name: string) {
    exists i :: 0 <= i < |pairs| && pairs[i].key == name
  }

  twostate predicate SameTexts(s: set<XmlNode>)
    reads s
  {
    forall y :: y in s ==> y.text == old(y.text)
  }

  /** Both name the same nodes, but for those named by the pairs; f' has all the nodes of f. */
  ghost predicate Extends(f: Forest, f': Forest, pairs: seq<Pair>) {
    && (forall y :: y in Nodes(f) ==> y in Nodes(f'))
    && (forall name :: !Mentions(pairs, name) ==> Matching(f', name) == Matching(f, name))
  }

  lemma ExtendsMore(f: Forest, g: Forest, h: Forest, pairs: seq<Pair>, i: nat, r: XmlNode)
    requires Extends(f, g, pairs) && Grown(g, h, r) && i < |pairs| && r.name == pairs[i].key
    ensures Extends(f, h, pairs)
  {
  }

  lemma ExtendsHas(f: Forest, f': Forest, pairs: seq<Pair>, x: XmlNode)
    requires Extends(f, f', pairs) && x in Nodes(f)
    ensures x in Nodes(f')
  {
  }

  lemma ExtendsSelf(f: Forest, pairs: seq<Pair>)
    ensures Extends(f, f, pairs)
  {
  }

  lemma FieldIn(f: Forest, nodes: seq<XmlNode>, x: XmlNode, key: string)
    requires Good(f, nodes) && x in Nodes(f)
    ensures FirstNamed(x.children, key) != null ==> FirstNamed(x.children, key) in Nodes(f)
  {
    var c := FirstNamed(x.children, key);
    if c != null {
      ChildIn(f, nodes, x, c);
    }
  }

  lemma OneMoreKey(before: seq<XmlNode>, after: seq<XmlNode>, pairs: seq<Pair>, i: nat)
    requires i < |pairs| && HasKeys(before, pairs[..i]) && before <= after
    requires FirstNamed(after, pairs[i].key) != null
    ensures HasKeys(after, pairs[..i + 1])
  {
    HasKeysStays(before, after[|before|..], pairs[..i]);
    assert before + after[|before|..] == after;
    var more := pairs[..i + 1];
    forall j | 0 <= j < |more|
      ensures FirstNamed(after, more[j].key) != null
    {
      if j < i {
        assert pairs[..i][j] == more[j];
      }
    }
  }

  /** The loop over the pairs of xml_get_node_data and xml_set_node_data. */
  method Fields(file: XmlFile, x: XmlNode, pairs: seq<Pair>, mode: Mode, ghost f: Forest, ghost nodes: seq<XmlNode>)
    returns (values: seq<string>, ghost f': Forest)
    requires Good(f, nodes) && x in Nodes(f)
    modifies file, x`children, Nodes(f)`text
    ensures |values| == |pairs|
    ensures Good(f', nodes) && Extends(f, f', pairs)
    ensures forall y :: y in Nodes(f') ==> y in Nodes(f) || fresh(y)
    ensures old(x.children) <= x.children && HasKeys(x.children, pairs)
    ensures HasKeys(old(x.children), pairs) ==>
      f' == f && unchanged(file) && x.children == old(x.children)
    ensures mode == Get ==> SameTexts(Nodes(f))
    ensures ContentsOf(x) == Filled(old(ContentsOf(x)), pairs, mode) && values == Answers(old(ContentsOf(x)), pairs, mode)
    ensures SameContents(Nodes(f), x)
  {
    hide Good, Nodes, Matching, Grown, Extends, HasKeys, Mentions, ContentsOf, Filled, Answers, After, Answer;
    ghost var was := ContentsOf(x);
    NothingFilled(was, pairs, mode);
    values := [];
    f' := f;
    ghost var kept := HasKeys(x.children, pairs);
    ExtendsSelf(f, pairs);
    GoodFacts(f, nodes);
    NoKeys(x.children, pairs);
    var i := 0;
    while i < |pairs|
      invariant i <= |pairs| && |values| == i
      invariant Good(f', nodes) && Extends(f, f', pairs)
      invariant forall y :: y in Nodes(f') ==> y in Nodes(f) || fresh(y)
      invariant old(x.children) <= x.children && HasKeys(x.children, pairs[..i])
      invariant kept ==> f' == f && unchanged(file) && x.children == old(x.children)
      invariant mode == Get ==> SameTexts(Nodes(f))
      invariant ContentsOf(x) == Filled(was, pairs[..i], mode) && values == Answers(was, pairs[..i], mode)
      invariant SameContents(Nodes(f), x)
    {
      FilledSnoc(was, pairs, i, mode);
      ContentsHas(x, pairs[i].key);
      ExtendsNodes(f, f', pairs, "");
      ghost var before, g := x.children, f';
      ExtendsHas(f, f', pairs, x);
      FieldIn(f', nodes, x, pairs[i].key);
      if kept {
        KeyKept(x.children, pairs, i);
      }
      var value;
      ghost var r;
      value, f', r := Field(file, x, pairs[i], mode, f', nodes);
      if f' != g {
        ExtendsMore(f, g, f', pairs, i, r);
        GrownNodes(g, f', r);
      }
      OneMoreKey(before, x.children, pairs, i);
      values := values + [value];
      i := i + 1;
    }
    assert pairs[..i] == pairs;
  }

  lemma NothingFilled(v: Contents, pairs: seq<Pair>, mode: Mode)
    ensures Filled(v, pairs[..0], mode) == v && Answers(v, pairs[..0], mode) == []
  {
  }

  lemma NoKeys(children: seq<XmlNode>, pairs: seq<Pair>)
    ensures HasKeys(children, pairs[..0])
  {
  }

  lemma KeyKept(children: seq<XmlNode>, pairs: seq<Pair>, i: nat)
    requires HasKeys(children, pairs) && i < |pairs|
    ensures FirstNamed(children, pairs[i].key) != null
  {
  }

  lemma GrownNodes(f: Forest, f': Forest, r: XmlNode)
    requires Grown(f, f', r)
    ensures forall y :: y in Nodes(f') ==> y in Nodes(f) || y == r
  {
  }

  twostate predicate OnlyGrew(s: set<XmlNode>)
    reads s
  {
    forall y :: y in s ==> old(y.children) <= y.children
  }

  lemma RootForm(p: XmlNode, f: Forest)
    requires Good(f, [p])
    ensures f.Cons? && f == Tree(p, f.kids) && Shows(f.kids, p.children) && Distinct(Preorder(Tree(p, f.kids)))
    ensures Nodes(f) == Under(p, f.kids) && p in Nodes(f)
  {
    assert [p][1..] == [];
    assert f.Cons? && f.node == p;
    ShowsNone(f.rest, [p][1..], "");
  }

  lemma PickedIn(f: Forest, name: string, index: nat)
    requires index < |Matching(f, name)|
    ensures Matching(f, name)[index] in Nodes(f) && Matching(f, name)[index].name == name
  {
    NodesArePreorder(f);
    var x := Matching(f, name)[index];
    assert x in Named(Preorder(f), name);
    assert x in Preorder(f);
  }

  lemma MissedIn(p: XmlNode, kids: Forest, r: XmlNode) returns (f': Forest)
    requires Distinct(Preorder(Tree(p, kids))) && r !in Nodes(Tree(p, kids))
    requires Shows(AddSibling(kids, r), p.children)
    ensures f' == Tree(p, AddSibling(kids, r)) && Good(f', [p])
    ensures forall y :: y in Nodes(f') <==> y in Nodes(Tree(p, kids)) || y == r
    ensures Matching(f', r.name) == Matching(Tree(p, kids), r.name) + [r]
  {
    hide Matching, Distinct, AddUnder;
    f' := Tree(p, AddSibling(kids, r));
    NodesArePreorder(Tree(p, kids));
    NodesArePreorder(f');
    AddAtRoot(p, kids, r);
    AddUnderMatching(Tree(p, kids), p, r, r.name);
    assert [p][1..] == [];
    assert Shows(Nil, [p][1..]);
    assert Shows(f', [p]);
    assert Distinct(Preorder(f'));
  }

  /** GetNode, with the tree that is left. */
  method PickNode(file: XmlFile, p: XmlNode, name: string, index: nat, ghost f: Forest)
    returns (x: XmlNode, ghost f': Forest)
    requires Good(f, [p])
    modifies file, Nodes(f)`children
    ensures Good(f', [p]) && x in Nodes(f') && x.name == name
    ensures (forall y :: y in Nodes(f) ==> y in Nodes(f')) && OnlyGrew(Nodes(f))
    ensures forall y :: y in Nodes(f') ==> y in Nodes(f) || fresh(y)
    ensures index < |Matching(f, name)| ==>
      x == Matching(f, name)[index] && f' == f && unchanged(file) && SameChildren(Nodes(f), null)
    ensures index >= |Matching(f, name)| ==>
      fresh(x) && file.saveFile && Matching(f', name) == Matching(f, name) + [x]
    ensures index >= |Matching(f, name)| ==> p.children == old(p.children) + [x] && SameChildren(Nodes(f), p)
    ensures index >= |Matching(f, name)| ==> x.children == []
  {
    hide Shows, Distinct, Preorder, Nodes, Matching, AddSibling, Good, Under;
    RootForm(p, f);
    GoodFacts(f, [p]);
    var r := GetNode(file, p, name, index, f.kids);
    x := r;
    if index < |Matching(f, name)| {
      PickedIn(f, name, index);
      f' := f;
      assert SameChildren(Nodes(f), null);
    } else {
      f' := MissedIn(p, f.kids, x);
    }
  }

  /** And what the fields of its nodes say then. */
  method Pick(file: XmlFile, p: XmlNode, name: string, index: nat, ghost f: Forest)
    returns (x: XmlNode, ghost f': Forest)
    requires Good(f, [p])
    modifies file, Nodes(f)`children
    ensures Good(f', [p]) && x in Nodes(f') && x.name == name
    ensures (forall y :: y in Nodes(f) ==> y in Nodes(f')) && OnlyGrew(Nodes(f))
    ensures forall y :: y in Nodes(f') ==> y in Nodes(f) || fresh(y)
    ensures index < |Matching(f, name)| ==>
      x == Matching(f, name)[index] && f' == f && unchanged(file) && SameChildren(Nodes(f), null)
    ensures index >= |Matching(f, name)| ==>
      fresh(x) && file.saveFile && Matching(f', name) == Matching(f, name) + [x]
    ensures index >= |Matching(f, name)| ==> p.children == old(p.children) + [x] && SameChildren(Nodes(f), p)
    ensures ContentsOf(x) == old(Found(f, name, index)) && SameContentsBut(Nodes(f), name, x)
    ensures index < |Matching(f, name)| ==> AllSame(Nodes(f))
    ensures index >= |Matching(f, name)| ==> x.children == []
  {
    hide Nodes, Matching, Good, FirstNamed;
    GoodFacts(f, [p]);
    ChildrenIn(f, [p]);
    MatchingIn(f, name);
    x, f' := PickNode(file, p, name, index, f);
    if index >= |Matching(f, name)| {
      OneMoreChild(old(p.children), x);
      NoChildren(x);
    }
  }

  lemma NoChildren(x: XmlNode)
    requires x.children == []
    ensures ContentsOf(x) == NO_CONTENTS
  {
  }

  ghost predicate Refused(pairs: seq<Pair>) {
    |pairs| == 0 || |pairs| > 32
  }

  /** There is a node of that name at index, and it has a child for every key. */
  ghost predicate Complete(f: Forest, name: string, index: nat, pairs: seq<Pair>)
    reads Nodes(f)`children
  {
    index < |Matching(f, name)| && (
      PickedIn(f, name, index);
      HasKeys(Matching(f, name)[index].children, pairs))
  }

  /**
   xml_get_node_data and xml_set_node_data: the node that was picked ends with a child for
   every key. If it had them all, nothing is created anywhere.
   */
  method NodeData(file: XmlFile, p: XmlNode, name: string, pairs: seq<Pair>, index: nat, mode: Mode, ghost f: Forest)
    returns (ret: int, values: seq<string>, ghost x: XmlNode, ghost f': Forest)
    requires Good(f, [p])
    modifies file, Nodes(f)`children, Nodes(f)`text
    ensures Refused(pairs) ==> ret == 1 && f' == f && unchanged(file) && SameChildren(Nodes(f), null) && SameTexts(Nodes(f))
    ensures !Refused(pairs) ==> ret == 0 && |values| == |pairs|
    ensures Good(f', [p]) && (forall y :: y in Nodes(f) ==> y in Nodes(f')) && OnlyGrew(Nodes(f))
    ensures forall y :: y in Nodes(f') ==> y in Nodes(f) || fresh(y)
    ensures !Refused(pairs) ==> x in Nodes(f') && x.name == name && HasKeys(x.children, pairs)
    ensures !Refused(pairs) && !Mentions(pairs, name) ==>
      Matching(f', name) == Matching(f, name) + if index < |Matching(f, name)| then [] else [x]
    ensures !Refused(pairs) && index < |Matching(f, name)| ==> x == Matching(f, name)[index]
    ensures old(Complete(f, name, index, pairs)) ==>
      f' == f && unchanged(file) && SameChildren(Nodes(f), null)
    ensures mode == Get ==> SameTexts(Nodes(f))
    ensures SameContentsBut(Nodes(f), name, x)
    ensures !Refused(pairs) ==>
      var v := old(Found(f, name, index)); ContentsOf(x) == Filled(v, pairs, mode) && values == Answers(v, pairs, mode)
  {
    hide Good, Nodes, Matching, Extends, HasKeys, Mentions, ContentsOf, Found, Filled, Answers;
    values, f', x := [], f, p;
    if |pairs| == 0 || |pairs| > MAX_PAIRS {
      return 1, values, x, f';
    }
    GoodFacts(f, [p]);
    ghost var g;
    var node;
    node, g := Pick(file, p, name, index, f);
    x := node;
    GoodFacts(g, [p]);
    values, f' := Fields(file, node, pairs, mode, g, [p]);
    ExtendsNodes(g, f', pairs, name);
    ret := 0;
  }

  lemma ExtendsNodes(f: Forest, f': Forest, pairs: seq<Pair>, name: string)
    requires Extends(f, f', pairs)
    ensures forall y :: y in Nodes(f) ==> y in Nodes(f')
    ensures !Mentions(pairs, name) ==> Matching(f', name) == Matching(f, name)
  {
  }

  // ---- The DLP attributes ----

  lemma {:induction false} NamedDistinct(nodes: seq<XmlNode>, name: string)
    requires Distinct(nodes)
    ensures Distinct(Named(nodes, name))
  {
    if nodes != [] {
      var rest := nodes[1..];
      assert forall i :: 0 <= i < |rest| ==> rest[i] == nodes[i + 1];
      NamedDistinct(rest, name);
      assert nodes[0] !in rest;
    }
  }

  lemma MatchingDistinct(f: Forest, nodes: seq<XmlNode>, name: string)
    requires Good(f, nodes)
    ensures Distinct(Matching(f, name))
  {
    NamedDistinct(Preorder(f), name);
  }

  function DlpPairs(values: seq<string>): seq<Pair>
    requires |values| == 4
  {
    [Pair("name", values[0]), Pair("rate", values[1]), Pair("brightness", values[2]), Pair("expoTime", values[3])]
  }

  lemma DlpKeys(values: seq<string>)
    requires |values| == 4
    ensures !Mentions(DlpPairs(values), DLP) && !Refused(DlpPairs(values)) && |DlpPairs(values)| == 4
  {
    assert |DLP| == 12;
  }

  ghost predicate HasDlpKeys(children: seq<XmlNode>) {
    HasKeys(children, DlpPairs(["", "", "", ""]))
  }

  /** The node that stands for this command is there, with all its fields. */
  ghost predicate DlpReady(f: Forest, inode: nat)
    reads Nodes(f)`children
  {
    Complete(f, DLP, inode, DlpPairs(["", "", "", ""]))
  }

  lemma KeysOnly(children: seq<XmlNode>, values: seq<string>)
    requires |values| == 4
    ensures HasKeys(children, DlpPairs(values)) <==> HasDlpKeys(children)
  {
    var a, b := DlpPairs(values), DlpPairs(["", "", "", ""]);
    assert forall i :: 0 <= i < 4 ==> a[i].key == b[i].key;
  }

  lemma ReadyMeans(f: Forest, inode: nat, values: seq<string>)
    requires |values| == 4
    ensures DlpReady(f, inode) <==> Complete(f, DLP, inode, DlpPairs(values))
    ensures DlpReady(f, inode) <==> inode < |Matching(f, DLP)| && HasDlpKeys(Matching(f, DLP)[inode].children)
  {
    if inode < |Matching(f, DLP)| {
      PickedIn(f, DLP, inode);
      KeysOnly(Matching(f, DLP)[inode].children, values);
    }
  }

  /** The number that a string of decimal digits stands for. */
  function Decimal(s: string): int {
    if s == "" then 0 else 10 * Decimal(s[..|s| - 1]) + (s[|s| - 1] as int - '0' as int)
  }

  /** sprintf with "%d": the index in decimal. */
  function Digit(inode: nat): (s: string)
    requires inode < TOTAL_DLP_CMDS
    ensures |s| == 1 && '0' <= s[0] <= '9' && Decimal(s) == inode
  {
    ["0", "1", "2", "3"][inode]
  }

  /**
   csv_xml_DlpAttribute. Asked for a node further on than the next one, it leaves two new
   nodes, as the second selection misses again.
   */
  method DlpAttribute(file: XmlFile, p: XmlNode, inode: nat, mode: Mode, held: seq<string>, ghost f: Forest)
    returns (ret: int, values: seq<string>, ghost x: XmlNode, ghost f': Forest)
    requires Good(f, [p]) && |held| == 4
    modifies file, Nodes(f)
    ensures inode >= TOTAL_DLP_CMDS ==> ret == -1 && values == held && f' == f && unchanged(file) && SameNodes(Nodes(f))
    ensures inode < TOTAL_DLP_CMDS ==> ret == 0 && |values| == 4
    ensures Good(f', [p]) && (forall y :: y in Nodes(f) ==> y in Nodes(f')) && OnlyGrew(Nodes(f))
    ensures forall y :: y in Nodes(f') ==> y in Nodes(f) || fresh(y)
    ensures inode < TOTAL_DLP_CMDS ==> var m, m' := Matching(f, DLP), Matching(f', DLP);
      && m <= m' && |m'| == (if inode < |m| then |m| else if inode == |m| then |m| + 1 else |m| + 2)
      && x in m' && (inode <= |m| ==> x == m'[inode])
      && "id" in x.props && x.props["id"] == Digit(inode)
    ensures inode < TOTAL_DLP_CMDS && inode <= |Matching(f, DLP)| ==> DlpReady(f', inode)
    ensures SameProps(Nodes(f), x)
    ensures old(DlpReady(f, inode)) ==> f' == f && unchanged(file) && SameChildren(Nodes(f), null)
    ensures mode == Get ==> SameTexts(Nodes(f))
    ensures inode < TOTAL_DLP_CMDS && inode <= |Matching(f, DLP)| ==> SameContentsBut(Nodes(f), DLP, x)
    ensures inode < TOTAL_DLP_CMDS && inode <= |Matching(f, DLP)| ==>
      var v := old(Found(f, DLP, inode));
      ContentsOf(x) == Filled(v, DlpPairs(held), mode) && values == Answers(v, DlpPairs(held), mode)
  {
    hide Good, Nodes, Matching, Complete, DlpReady, DlpPairs, HasDlpKeys, Digit, ContentsOf, Filled, Answers, Found;
    values, x, f' := held, p, f;
    if inode >= TOTAL_DLP_CMDS {
      return -1, values, x, f';
    }
    GoodFacts(f, [p]);
    ReadyMeans(f, inode, held);
    ghost var g;
    ret, values, x, g := DlpFields(file, p, inode, mode, held, f);
    GoodFacts(g, [p]);
    ghost var first := x;
    x, f' := SetId(file, p, inode, g);
    if inode <= |Matching(f, DLP)| {
      assert x == first;
      ReadyMeans(f', inode, held);
    }
  }

  /** The call of xml_get_node_data or xml_set_node_data. */
  method DlpFields(file: XmlFile, p: XmlNode, inode: nat, mode: Mode, held: seq<string>, ghost f: Forest)
    returns (ret: int, values: seq<string>, ghost x: XmlNode, ghost g: Forest)
    requires Good(f, [p]) && |held| == 4 && inode < TOTAL_DLP_CMDS
    modifies file, Nodes(f)`children, Nodes(f)`text
    ensures ret == 0 && |values| == 4
    ensures Good(g, [p]) && (forall y :: y in Nodes(f) ==> y in Nodes(g)) && OnlyGrew(Nodes(f))
    ensures forall y :: y in Nodes(g) ==> y in Nodes(f) || fresh(y)
    ensures Matching(g, DLP) == Matching(f, DLP) + if inode < |Matching(f, DLP)| then [] else [x]
    ensures inode < |Matching(f, DLP)| ==> x == Matching(f, DLP)[inode]
    ensures x in Nodes(g) && HasDlpKeys(x.children) && (x in Nodes(f) || fresh(x))
    ensures old(DlpReady(f, inode)) ==> g == f && unchanged(file) && SameChildren(Nodes(f), null)
    ensures mode == Get ==> SameTexts(Nodes(f))
    ensures SameContentsBut(Nodes(f), DLP, x)
    ensures var v := old(Found(f, DLP, inode));
      ContentsOf(x) == Filled(v, DlpPairs(held), mode) && values == Answers(v, DlpPairs(held), mode)
  {
    hide Good, Nodes, Matching, HasKeys, Complete, DlpReady, DlpPairs, HasDlpKeys, Mentions, Refused, ContentsOf, Filled, Answers, Found;
    GoodFacts(f, [p]);
    DlpKeys(held);
    ReadyMeans(f, inode, held);
    ret, values, x, g := NodeData(file, p, DLP, DlpPairs(held), inode, mode, f);
    KeysOnly(x.children, held);
  }

  /** xml_get_node once more, and xmlSetProp. */
  method SetId(file: XmlFile, p: XmlNode, inode: nat, ghost f: Forest) returns (ghost x: XmlNode, ghost f': Forest)
    requires Good(f, [p]) && inode < TOTAL_DLP_CMDS
    modifies file, Nodes(f)`children, Nodes(f)`props
    ensures Good(f', [p]) && (forall y :: y in Nodes(f) ==> y in Nodes(f')) && OnlyGrew(Nodes(f))
    ensures forall y :: y in Nodes(f') ==> y in Nodes(f) || fresh(y)
    ensures x in Matching(f', DLP) && "id" in x.props && x.props["id"] == Digit(inode)
    ensures SameProps(Nodes(f), x)
    ensures inode < |Matching(f, DLP)| ==>
      x == Matching(f, DLP)[inode] && f' == f && unchanged(file) && SameChildren(Nodes(f), null)
    ensures inode >= |Matching(f, DLP)| ==> Matching(f', DLP) == Matching(f, DLP) + [x]
    ensures inode < |Matching(f, DLP)| ==> AllSame(Nodes(f))
  {
    hide Good, Nodes, Matching, Digit, Found, ContentsOf;
    GoodFacts(f, [p]);
    var node;
    node, f' := Pick(file, p, DLP, inode, f);
    GoodFacts(f', [p]);
    node.props := node.props["id" := Digit(inode)];
    x := node;
    PickedLast(f', DLP, node);
  }

  lemma PickedLast(f: Forest, name: string, x: XmlNode)
    requires x in Nodes(f) && x.name == name
    ensures x in Matching(f, name)
  {
    NodesArePreorder(f);
  }

  twostate predicate SameNodes(s: set<XmlNode>)
    reads s
  {
    forall y :: y in s ==> y.text == old(y.text) && y.props == old(y.props) && y.children == old(y.children)
  }

  twostate predicate SameProps(s: set<XmlNode>, new but: XmlNode)
    reads s
  {
    forall y :: y in s && y != but ==> y.props == old(y.props)
  }

  // ---- The pass over all DLP commands ----

  ghost predicate IsId(x: XmlNode, i: nat)
    reads x
  {
    i < TOTAL_DLP_CMDS && "id" in x.props && x.props["id"] == Digit(i)
  }

  /** The first n nodes have all their fields. */
  ghost predicate ReadyUpTo(f: Forest, n: nat)
    reads Nodes(f)
  {
    n <= |Matching(f, DLP)| &&
    forall x :: x in Nodes(f) && x in Matching(f, DLP)[..n] ==> HasDlpKeys(x.children)
  }

  /** The first n nodes carry their numbers. */
  ghost predicate NumberedUpTo(f: Forest, n: nat)
    reads Nodes(f)
  {
    n <= |Matching(f, DLP)| &&
    forall i :: 0 <= i < n ==> (
      PickedIn(f, DLP, i);
      IsId(Matching(f, DLP)[i], i))
  }

  lemma ReadyGrows(f: Forest, f': Forest, n: nat, h: map<XmlNode, seq<XmlNode>>)
    requires n <= |Matching(f, DLP)| && Matching(f, DLP) <= Matching(f', DLP)
    requires forall x :: x in Nodes(f) ==> x in h && h[x] <= x.children
    requires forall x :: x in Nodes(f) && x in Matching(f, DLP)[..n] ==> HasDlpKeys(h[x])
    requires DlpReady(f', n)
    ensures ReadyUpTo(f', n + 1)
  {
    hide Matching, Nodes, HasDlpKeys;
    ReadyMeans(f', n, ["", "", "", ""]);
    hide DlpReady;
    var m, m' := Matching(f, DLP), Matching(f', DLP);
    forall x | x in Nodes(f') && x in m'[..n + 1]
      ensures HasDlpKeys(x.children)
    {
      if x != m'[n] {
        var i :| 0 <= i < n && x == m'[i];
        PickedIn(f, DLP, i);
        assert x == m[..n][i];
        LongerHasKeys(h[x], x.children);
      }
    }
  }

  lemma LongerHasKeys(before: seq<XmlNode>, after: seq<XmlNode>)
    requires before <= after && HasDlpKeys(before)
    ensures HasDlpKeys(after)
  {
    HasKeysStays(before, after[|before|..], DlpPairs(["", "", "", ""]));
    assert before + after[|before|..] == after;
  }

  lemma ReadyAt(f: Forest, n: nat, i: nat)
    requires ReadyUpTo(f, n) && i < n
    ensures DlpReady(f, i)
  {
    PickedIn(f, DLP, i);
    ReadyMeans(f, i, ["", "", "", ""]);
    assert Matching(f, DLP)[..n][i] == Matching(f, DLP)[i];
  }

  /** A node that is numbered and has its four fields. */
  ghost predicate IsComplete(x: XmlNode, i: nat)
    reads x
  {
    && "id" in x.props && Decimal(x.props["id"]) == i
    && FirstNamed(x.children, "name") != null && FirstNamed(x.children, "rate") != null
    && FirstNamed(x.children, "brightness") != null && FirstNamed(x.children, "expoTime") != null
  }

  /** At least four nodes of this name, the first of them such nodes, in their order. */
  ghost predicate FourNodes(f: Forest)
    reads Nodes(f)
  {
    && |Matching(f, "DlpAttribute")| >= 4
    && forall i :: 0 <= i < 4 ==> (
         PickedIn(f, "DlpAttribute", i);
         IsComplete(Matching(f, "DlpAttribute")[i], i))
  }

  lemma NodesInWords(f: Forest)
    requires ReadyUpTo(f, TOTAL_DLP_CMDS) && NumberedUpTo(f, TOTAL_DLP_CMDS)
    ensures FourNodes(f)
  {
    forall i | 0 <= i < 4
      ensures Matching(f, "DlpAttribute")[i] in Nodes(f) && IsComplete(Matching(f, "DlpAttribute")[i], i)
    {
      var x := Matching(f, DLP)[i];
      PickedIn(f, DLP, i);
      assert Matching(f, DLP)[..TOTAL_DLP_CMDS][i] == x;
      assert HasDlpKeys(x.children) && IsId(x, i);
      FieldsInWords(x.children);
    }
  }

  lemma FieldsInWords(children: seq<XmlNode>)
    requires HasDlpKeys(children)
    ensures FirstNamed(children, "name") != null && FirstNamed(children, "rate") != null
    ensures FirstNamed(children, "brightness") != null && FirstNamed(children, "expoTime") != null
  {
    var pairs := DlpPairs(["", "", "", ""]);
    assert pairs[0].key == "name" && pairs[1].key == "rate" && pairs[2].key == "brightness" && pairs[3].key == "expoTime";
  }

  /** The text of a field, or what the caller had if there is none. */
  function TextOr(c: Content, held: string): string {
    match c
    case Present(Some(text)) => text
    case _ => held
  }

  /** What is read of a node: its name, rate, brightness and exposure time, in this order. */
  ghost predicate ReadFrom(v: Contents, held: seq<string>, values: seq<string>) {
    && |held| == |values| == 4
    && values[0] == TextOr(v["name"], held[0]) && values[1] == TextOr(v["rate"], held[1])
    && values[2] == TextOr(v["brightness"], held[2]) && values[3] == TextOr(v["expoTime"], held[3])
  }

  /**
   A field that is set: there is a value, it takes the place of a text. Without either, nothing
   happens but that a missing field is there then. A field that is read stays; a missing one gets
   what the caller had, or 0.
   */
  function Written(mode: Mode, c: Content, held: string): Content {
    match c
    case Present(Some(text)) => if mode == Set && held != "" then Present(Some(held)) else c
    case Present(None) => c
    case Absent => if held != "" then Present(Some(held)) else if mode == Get then Present(Some("0")) else Present(None)
  }

  /** What becomes of the four fields. */
  ghost predicate WrittenTo(mode: Mode, v: Contents, now: Contents, held: seq<string>) {
    && |held| == 4
    && now["name"] == Written(mode, v["name"], held[0]) && now["rate"] == Written(mode, v["rate"], held[1])
    && now["brightness"] == Written(mode, v["brightness"], held[2]) && now["expoTime"] == Written(mode, v["expoTime"], held[3])
  }

  lemma WrittenIsAfter(mode: Mode, c: Content, held: string)
    ensures After(mode, c, held) == Written(mode, c, held)
  {
  }

  lemma AnswersInWords(v: Contents, held: seq<string>, mode: Mode)
    requires |held| == 4
    ensures mode == Get ==> ReadFrom(v, held, Answers(v, DlpPairs(held), mode))
    ensures WrittenTo(mode, v, Filled(v, DlpPairs(held), mode), held)
  {
    var pairs := DlpPairs(held);
    assert pairs[0].key == "name" && pairs[1].key == "rate" && pairs[2].key == "brightness" && pairs[3].key == "expoTime";
    assert |pairs[0].key| == 4 && |pairs[2].key| == 10 && |pairs[3].key| == 8 && pairs[1].key[0] == 'r' && pairs[0].key[0] == 'n';
    assert DistinctKeys(pairs);
    FilledAt(v, pairs, mode, 0);
    FilledAt(v, pairs, mode, 1);
    FilledAt(v, pairs, mode, 2);
    FilledAt(v, pairs, mode, 3);
    WrittenIsAfter(mode, v["name"], held[0]);
    WrittenIsAfter(mode, v["rate"], held[1]);
    WrittenIsAfter(mode, v["brightness"], held[2]);
    WrittenIsAfter(mode, v["expoTime"], held[3]);
    hide Filled, Answers, After, Written;
  }

  lemma PassInWords(was: seq<Contents>, now: seq<Contents>, held: seq<seq<string>>, mode: Mode, values: seq<seq<string>>)
    requires Passed(was, now, held, mode, values, TOTAL_DLP_CMDS)
    ensures |was| == |now| == |held| == |values| == 4
    ensures mode == Get ==> forall i :: 0 <= i < 4 ==> ReadFrom(was[i], held[i], values[i])
    ensures forall i :: 0 <= i < 4 ==> WrittenTo(mode, was[i], now[i], held[i])
  {
    hide ReadFrom, WrittenTo, Filled, Answers, DlpPairs, After;
    forall i | 0 <= i < 4
      ensures mode == Get ==> ReadFrom(was[i], held[i], values[i])
      ensures WrittenTo(mode, was[i], now[i], held[i])
    {
      AnswersInWords(was[i], held[i], mode);
      AlikeSays(mode, was[i], now[i], Filled(was[i], DlpPairs(held[i]), mode), held[i]);
    }
  }

  lemma AlikeSays(mode: Mode, v: Contents, now: Contents, filled: Contents, held: seq<string>)
    requires Alike(now, filled) && WrittenTo(mode, v, filled, held)
    ensures WrittenTo(mode, v, now, held)
  {
    hide Written;
  }

  /** The loop of csv_xml_DlpConfiguration. */
  method DlpPass(file: XmlFile, p: XmlNode, mode: Mode, held: seq<seq<string>>, ghost f: Forest)
    returns (values: seq<seq<string>>, ghost f': Forest)
    requires Good(f, [p]) && |held| == TOTAL_DLP_CMDS && forall i :: 0 <= i < |held| ==> |held[i]| == 4
    modifies file, Nodes(f)
    ensures |values| == TOTAL_DLP_CMDS && forall i :: 0 <= i < |values| ==> |values[i]| == 4
    ensures Good(f', [p]) && (forall y :: y in Nodes(f) ==> y in Nodes(f'))
    ensures forall y :: y in Nodes(f') ==> y in Nodes(f) || fresh(y)
    ensures Matching(f, DLP) <= Matching(f', DLP) && Distinct(Matching(f', DLP))
    ensures |Matching(f', DLP)| == if |Matching(f, DLP)| < TOTAL_DLP_CMDS then TOTAL_DLP_CMDS else |Matching(f, DLP)|
    ensures ReadyUpTo(f', TOTAL_DLP_CMDS) && NumberedUpTo(f', TOTAL_DLP_CMDS)
    ensures old(ReadyUpTo(f, TOTAL_DLP_CMDS)) ==> f' == f && unchanged(file) && SameChildren(Nodes(f), null)
    ensures mode == Get ==> SameTexts(Nodes(f))
    ensures Passed(old(AllFound(f)), AllFound(f'), held, mode, values, TOTAL_DLP_CMDS)
    ensures FourNodes(f') && (mode == Get ==> forall i :: 0 <= i < 4 ==> ReadFrom(old(AllFound(f))[i], held[i], values[i]))
    ensures forall i :: 0 <= i < 4 ==> WrittenTo(mode, old(AllFound(f))[i], AllFound(f')[i], held[i])
  {
    hide FourNodes, ReadFrom, WrittenTo, Good, Nodes, Matching, HasDlpKeys, DlpReady, Digit, ReadyUpTo, NumberedUpTo, Found, Filled, Answers, ContentsOf, DlpPairs, Passed, AllFound;
    values, f' := [], f;
    ghost var was := AllFound(f);
    NonePassed(was, held, mode);
    ghost var kept := ReadyUpTo(f, TOTAL_DLP_CMDS);
    GoodFacts(f, [p]);
    NoneYet(f);
    var i := 0;
    while i < TOTAL_DLP_CMDS
      invariant i <= TOTAL_DLP_CMDS && |values| == i && forall j :: 0 <= j < |values| ==> |values[j]| == 4
      invariant Good(f', [p]) && (forall y :: y in Nodes(f) ==> y in Nodes(f'))
      invariant forall y :: y in Nodes(f') ==> y in Nodes(f) || fresh(y)
      invariant Matching(f, DLP) <= Matching(f', DLP)
      invariant |Matching(f', DLP)| == if |Matching(f, DLP)| < i then i else |Matching(f, DLP)|
      invariant ReadyUpTo(f', i) && NumberedUpTo(f', i)
      invariant kept ==> f' == f && unchanged(file) && SameChildren(Nodes(f), null) && ReadyUpTo(f, TOTAL_DLP_CMDS)
      invariant mode == Get ==> SameTexts(Nodes(f))
      invariant Passed(was, AllFound(f'), held, mode, values, i)
    {
      var value;
      ghost var before := AllFound(f');
      value, f' := DlpRound(file, p, i, mode, held[i], f');
      OnePassed(was, before, AllFound(f'), held, mode, values, value, i);
      values := values + [value];
      i := i + 1;
    }
    MatchingDistinct(f', [p], DLP);
    NodesInWords(f');
    PassInWords(was, AllFound(f'), held, mode, values);
  }

  lemma NoneYet(f: Forest)
    ensures ReadyUpTo(f, 0) && NumberedUpTo(f, 0)
  {
  }

  /** One round: the nodes up to this one are ready and numbered. */
  method DlpStep(file: XmlFile, p: XmlNode, i: nat, mode: Mode, held: seq<string>, ghost f: Forest)
    returns (value: seq<string>, ghost x: XmlNode, ghost f': Forest)
    requires Good(f, [p]) && i < TOTAL_DLP_CMDS && |held| == 4
    requires ReadyUpTo(f, i) && NumberedUpTo(f, i)
    modifies file, Nodes(f)
    ensures |value| == 4 && Good(f', [p]) && (forall y :: y in Nodes(f) ==> y in Nodes(f'))
    ensures forall y :: y in Nodes(f') ==> y in Nodes(f) || fresh(y)
    ensures Matching(f, DLP) <= Matching(f', DLP)
    ensures |Matching(f', DLP)| == if |Matching(f, DLP)| == i then i + 1 else |Matching(f, DLP)|
    ensures ReadyUpTo(f', i + 1) && NumberedUpTo(f', i + 1)
    ensures old(ReadyUpTo(f, TOTAL_DLP_CMDS)) ==>
      f' == f && unchanged(file) && SameChildren(Nodes(f), null) && ReadyUpTo(f, TOTAL_DLP_CMDS)
    ensures mode == Get ==> SameTexts(Nodes(f))
    ensures i < |Matching(f', DLP)| && x == Matching(f', DLP)[i] && SameContentsBut(Nodes(f), DLP, x)
    ensures var v := old(Found(f, DLP, i));
      ContentsOf(x) == Filled(v, DlpPairs(held), mode) && value == Answers(v, DlpPairs(held), mode)
  {
    hide Good, Nodes, Matching, HasDlpKeys, DlpReady, Digit, ContentsOf, Filled, Answers, DlpPairs, Found;
    GoodFacts(f, [p]);
    if ReadyUpTo(f, TOTAL_DLP_CMDS) {
      ReadyAt(f, TOTAL_DLP_CMDS, i);
    }
    ghost var h := Snapshot(Nodes(f));
    var ret;
    ret, value, x, f' := DlpAttribute(file, p, i, mode, held, f);
    ReadyGrows(f, f', i, h);
    MatchingDistinct(f', [p], DLP);
    forall j | 0 <= j < i + 1
      ensures IsId(Matching(f', DLP)[j], j)
    {
      if j < i {
        PickedIn(f, DLP, j);
        assert Matching(f, DLP)[j] == Matching(f', DLP)[j];
      }
    }
  }

  /** The others say what they said. */
  method DlpRound(file: XmlFile, p: XmlNode, i: nat, mode: Mode, held: seq<string>, ghost f: Forest)
    returns (value: seq<string>, ghost f': Forest)
    requires Good(f, [p]) && i < TOTAL_DLP_CMDS && |held| == 4
    requires ReadyUpTo(f, i) && NumberedUpTo(f, i)
    modifies file, Nodes(f)
    ensures |value| == 4 && Good(f', [p]) && (forall y :: y in Nodes(f) ==> y in Nodes(f'))
    ensures forall y :: y in Nodes(f') ==> y in Nodes(f) || fresh(y)
    ensures Matching(f, DLP) <= Matching(f', DLP)
    ensures |Matching(f', DLP)| == if |Matching(f, DLP)| == i then i + 1 else |Matching(f, DLP)|
    ensures ReadyUpTo(f', i + 1) && NumberedUpTo(f', i + 1)
    ensures old(ReadyUpTo(f, TOTAL_DLP_CMDS)) ==>
      f' == f && unchanged(file) && SameChildren(Nodes(f), null) && ReadyUpTo(f, TOTAL_DLP_CMDS)
    ensures mode == Get ==> SameTexts(Nodes(f))
    ensures OneFilled(old(AllFound(f)), AllFound(f'), i, held, mode, value)
  {
    hide Good, Nodes, Matching, HasDlpKeys, ContentsOf, Filled, Answers, DlpPairs, AllFound, ReadyUpTo, NumberedUpTo, Alike;
    AllFoundAre(f);
    MatchingIn(f, DLP);
    ghost var x, was, m := p, AllFound(f), Matching(f, DLP);
    value, x, f' := DlpStep(file, p, i, mode, held, f);
    AllFoundAre(f');
    MatchingDistinct(f', [p], DLP);
    ghost var m' := Matching(f', DLP);
    forall j | 0 <= j < TOTAL_DLP_CMDS && j != i
      ensures Alike(AllFound(f')[j], was[j])
    {
      if j < |m| {
        assert m'[j] == m[j] && m[j] in Nodes(f) && m[j] != x;
        AlikeNode(ContentsOf(m[j]), was[j]);
      } else {
        AlikeNode(NO_CONTENTS, NO_CONTENTS);
      }
    }
  }

  lemma AlikeNode(v: Contents, w: Contents)
    requires forall key :: key != DLP ==> v[key] == w[key]
    ensures Alike(v, w)
  {
  }

  /** Two say the same of all fields but those that are attributes of their own. */
  ghost predicate Alike(v: Contents, w: Contents) {
    forall key :: key != DLP ==> v[key] == w[key]
  }

  lemma MatchingIn(f: Forest, name: string)
    ensures forall j :: 0 <= j < |Matching(f, name)| ==> Matching(f, name)[j] in Nodes(f)
  {
    forall j | 0 <= j < |Matching(f, name)|
      ensures Matching(f, name)[j] in Nodes(f)
    {
      PickedIn(f, name, j);
    }
  }

  /** What does not tell two apart does not after it was filled in, and the answers are the same. */
  lemma {:induction false} FilledAlike(v: Contents, w: Contents, pairs: seq<Pair>, mode: Mode)
    requires Alike(v, w) && !Mentions(pairs, DLP)
    ensures Alike(Filled(v, pairs, mode), Filled(w, pairs, mode)) && Answers(v, pairs, mode) == Answers(w, pairs, mode)
    decreases |pairs|
  {
    hide After, Answer;
    if pairs != [] {
      assert pairs[|pairs| - 1].key != DLP;
      FilledAlike(v, w, pairs[..|pairs| - 1], mode);
    }
  }

  /** What the fields of the nodes that stand for the commands say. */
  ghost function AllFound(f: Forest): (s: seq<Contents>)
    reads *
    ensures |s| == TOTAL_DLP_CMDS
  {
    [Found(f, DLP, 0), Found(f, DLP, 1), Found(f, DLP, 2), Found(f, DLP, 3)]
  }

  /** One of them has been filled in, the others say what they said. */
  ghost predicate OneFilled(was: seq<Contents>, now: seq<Contents>, i: nat, held: seq<string>, mode: Mode, value: seq<string>) {
    && |was| == |now| == TOTAL_DLP_CMDS && i < TOTAL_DLP_CMDS && |held| == 4
    && now[i] == Filled(was[i], DlpPairs(held), mode) && value == Answers(was[i], DlpPairs(held), mode)
    && forall j :: 0 <= j < TOTAL_DLP_CMDS && j != i ==> Alike(now[j], was[j])
  }

  /** The first n have been filled in, with the answers that were given. */
  ghost predicate Passed(was: seq<Contents>, now: seq<Contents>, held: seq<seq<string>>, mode: Mode, values: seq<seq<string>>, n: nat) {
    && |was| == |now| == |held| == TOTAL_DLP_CMDS && n == |values| <= TOTAL_DLP_CMDS
    && (forall j :: 0 <= j < TOTAL_DLP_CMDS ==> |held[j]| == 4)
    && (forall j :: 0 <= j < n ==>
          && Alike(now[j], Filled(was[j], DlpPairs(held[j]), mode))
          && values[j] == Answers(was[j], DlpPairs(held[j]), mode))
    && (forall j :: n <= j < TOTAL_DLP_CMDS ==> Alike(now[j], was[j]))
  }

  lemma NonePassed(was: seq<Contents>, held: seq<seq<string>>, mode: Mode)
    requires |was| == |held| == TOTAL_DLP_CMDS && forall j :: 0 <= j < TOTAL_DLP_CMDS ==> |held[j]| == 4
    ensures Passed(was, was, held, mode, [], 0)
  {
  }

  lemma OnePassed(was: seq<Contents>, before: seq<Contents>, now: seq<Contents>, held: seq<seq<string>>, mode: Mode,
                  values: seq<seq<string>>, value: seq<string>, i: nat)
    requires i < TOTAL_DLP_CMDS && Passed(was, before, held, mode, values, i) && OneFilled(before, now, i, held[i], mode, value)
    ensures Passed(was, now, held, mode, values + [value], i + 1)
  {
    hide Filled, Answers, DlpPairs;
    DlpKeys(held[i]);
    FilledAlike(before[i], was[i], DlpPairs(held[i]), mode);
  }

  lemma AllFoundAre(f: Forest)
    ensures forall j :: 0 <= j < TOTAL_DLP_CMDS ==> AllFound(f)[j] == Found(f, DLP, j)
  {
    hide Found;
  }

  /**
   Reading the configuration again adds nothing: after one pass in either mode the file can
   be written back, and a second pass neither creates a node nor asks for another write.
   */
  method DlpPassTwice(file: XmlFile, p: XmlNode, mode: Mode, held: seq<seq<string>>, ghost f: Forest)
    returns (ghost once: Forest, ghost twice: Forest)
    requires Good(f, [p]) && |held| == TOTAL_DLP_CMDS && forall i :: 0 <= i < |held| ==> |held[i]| == 4
    modifies file, Nodes(f)
    ensures Good(twice, [p]) && twice == once && !file.saveFile
    ensures |Matching(twice, DLP)| >= TOTAL_DLP_CMDS && Distinct(Matching(twice, DLP))
  {
    hide Good, Nodes, Matching, ReadyUpTo, NumberedUpTo, Distinct, Passed, AllFound;
    var values;
    values, once := DlpPass(file, p, mode, held, f);
    file.saveFile := false;
    GoodFacts(once, [p]);
    values, twice := DlpPass(file, p, Get, values, once);
  }

  /** The names of the four fields. */
  const DLP_KEYS := ["name", "rate", "brightness", "expoTime"]

  lemma PairAt(values: seq<string>, k: nat)
    requires |values| == 4 && k < 4
    ensures DlpPairs(values)[k] == Pair(DLP_KEYS[k], values[k])
  {
  }

  lemma DlpKeysDiffer(values: seq<string>)
    requires |values| == 4
    ensures DistinctKeys(DlpPairs(values))
  {
    assert |DLP_KEYS[0]| == 4 && |DLP_KEYS[1]| == 4 && |DLP_KEYS[2]| == 10 && |DLP_KEYS[3]| == 8;
    assert DLP_KEYS[0][0] == 'n' && DLP_KEYS[1][0] == 'r';
  }

  lemma BothPasses(was: seq<Contents>, mid: seq<Contents>, now: seq<Contents>, given: seq<seq<string>>, asked: seq<seq<string>>,
                   stored: seq<seq<string>>, got: seq<seq<string>>, j: nat, k: nat)
    requires Passed(was, mid, given, Set, stored, TOTAL_DLP_CMDS) && Passed(mid, now, asked, Get, got, TOTAL_DLP_CMDS)
    requires j < TOTAL_DLP_CMDS && k < 4
    ensures |given[j]| == 4 && |asked[j]| == 4 && |got[j]| == 4
    ensures got[j][k] == ReadAfterSet(was[j][DLP_KEYS[k]], given[j][k], asked[j][k])
  {
    hide Filled, Answers, DlpPairs, ReadAfterSet;
    var first, second := DlpPairs(given[j]), DlpPairs(asked[j]);
    DlpKeys(given[j]);
    DlpKeys(asked[j]);
    DlpKeysDiffer(given[j]);
    forall i | 0 <= i < 4
      ensures first[i] == Pair(DLP_KEYS[i], given[j][i]) && second[i] == Pair(DLP_KEYS[i], asked[j][i])
    {
      PairAt(given[j], i);
      PairAt(asked[j], i);
    }
    FilledAlike(mid[j], Filled(was[j], first, Set), second, Get);
    ReadsWhatWasSet(was[j], first, second, k);
  }

  /**
   Writing all attributes and then reading them: every value that was given comes back, but
   for an empty one, which replaces no text, and for a field that was there without any text.
   */
  method SetPassThenGetPass(file: XmlFile, p: XmlNode, given: seq<seq<string>>, asked: seq<seq<string>>, ghost f: Forest)
    returns (got: seq<seq<string>>, ghost f': Forest)
    requires Good(f, [p]) && |given| == |asked| == TOTAL_DLP_CMDS
    requires forall i :: 0 <= i < TOTAL_DLP_CMDS ==> |given[i]| == |asked[i]| == 4
    modifies file, Nodes(f)
    ensures Good(f', [p]) && |got| == TOTAL_DLP_CMDS && forall j :: 0 <= j < TOTAL_DLP_CMDS ==> |got[j]| == 4
    ensures forall j, k :: 0 <= j < TOTAL_DLP_CMDS && 0 <= k < 4 ==>
      got[j][k] == ReadAfterSet(old(AllFound(f))[j][DLP_KEYS[k]], given[j][k], asked[j][k])
  {
    hide Good, Nodes, Matching, ReadyUpTo, NumberedUpTo, Distinct, Passed, AllFound, ReadAfterSet;
    ghost var was, g := AllFound(f), f;
    var stored;
    stored, g := DlpPass(file, p, Set, given, f);
    ghost var mid := AllFound(g);
    GoodFacts(g, [p]);
    got, f' := DlpPass(file, p, Get, asked, g);
    forall j, k | 0 <= j < TOTAL_DLP_CMDS && 0 <= k < 4
      ensures got[j][k] == ReadAfterSet(was[j][DLP_KEYS[k]], given[j][k], asked[j][k])
    {
      BothPasses(was, mid, AllFound(f'), given, asked, stored, got, j, k);
    }
  }

  lemma {:induction false} SubTree(f: Forest, nodes: seq<XmlNode>, x: XmlNode) returns (g: Forest)
    requires Good(f, nodes) && x in Nodes(f)
    ensures Good(g, [x]) && forall y :: y in Nodes(g) ==> y in Nodes(f)
  {
    NodesArePreorder(f);
    DistinctParts(f);
    if x == f.node {
      g := Tree(x, f.kids);
      assert [x][1..] == [];
      assert Preorder(g) == Preorder(f)[..1 + |Preorder(f.kids)|];
    } else if x in Nodes(f.kids) {
      g := SubTree(f.kids, f.node.children, x);
    } else {
      g := SubTree(f.rest, nodes[1..], x);
    }
  }

  /**
   csv_xml_DlpConfiguration: the pass runs below the first node of that name. If there is none,
   one is created as the last child of the node asked. Nothing else in the tree changes.
   */
  method DlpConfiguration(file: XmlFile, p: XmlNode, mode: Mode, held: seq<seq<string>>, ghost f: Forest)
    returns (ret: int, values: seq<seq<string>>, node: XmlNode, ghost below: Forest, ghost g: Forest)
    requires Good(f, [p]) && |held| == TOTAL_DLP_CMDS && forall i :: 0 <= i < |held| ==> |held[i]| == 4
    modifies file, Nodes(f)
    ensures ret == 0 && node.name == "DlpConfiguration"
    ensures Matching(f, "DlpConfiguration") != [] ==> node == Matching(f, "DlpConfiguration")[0]
    ensures Matching(f, "DlpConfiguration") == [] ==>
      fresh(node) && p.children == old(p.children) + [node] && Nodes(below) == {node}
    ensures Good(g, [node]) && ReadyUpTo(g, TOTAL_DLP_CMDS) && NumberedUpTo(g, TOTAL_DLP_CMDS) && FourNodes(g)
    ensures node in Nodes(below) && SameElsewhere(Nodes(f), Nodes(below), p)
  {
    hide Good, Nodes, Matching, ReadyUpTo, NumberedUpTo, Passed, AllFound;
    GoodFacts(f, [p]);
    node, below := PickBelow(file, p, "DlpConfiguration", f);
    GoodFacts(below, [node]);
    values, g := DlpPass(file, node, mode, held, below);
    ret := 0;
  }

  /** The first node of a name, and the tree below it. */
  method PickBelow(file: XmlFile, p: XmlNode, name: string, ghost f: Forest) returns (node: XmlNode, ghost below: Forest)
    requires Good(f, [p])
    modifies file, Nodes(f)`children
    ensures Good(below, [node]) && node in Nodes(below) && node.name == name
    ensures forall y :: y in Nodes(below) ==> y in Nodes(f) || fresh(y)
    ensures Matching(f, name) != [] ==> node == Matching(f, name)[0] && SameChildren(Nodes(f), null)
    ensures Matching(f, name) == [] ==>
      fresh(node) && p.children == old(p.children) + [node] && Nodes(below) == {node} && SameChildren(Nodes(f), p)
    ensures p in Nodes(f)
  {
    hide Good, Nodes, Matching, ContentsOf, Found;
    GoodFacts(f, [p]);
    RootForm(p, f);
    ghost var f';
    node, f' := Pick(file, p, name, 0, f);
    below := SubTree(f', [p], node);
    if node.children == [] {
      OnlyRoot(node, below);
    }
    RootForm(node, below);
  }

  lemma OnlyRoot(p: XmlNode, f: Forest)
    requires Good(f, [p]) && p.children == []
    ensures Nodes(f) == {p}
  {
    RootForm(p, f);
    ShowsNone(f.kids, p.children, "");
  }

  /** No node of s outside t changes, but p may have gained a child. */
  twostate predicate SameElsewhere(s: set<XmlNode>, new t: set<XmlNode>, p: XmlNode)
    reads s
  {
    forall y :: y in s && y !in t ==> y.text == old(y.text) && y.props == old(y.props) && (y != p ==> y.children == old(y.children))
  }
}
