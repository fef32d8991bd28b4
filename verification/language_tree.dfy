/** The language tree helpers at the end of lexibank_diacl.py: `lids`,
    `iternodes` and `parse_tree`, over the JSON tree of the language
    taxonomy. */
module LanguageTree {
  import opened Wrappers
  import Dicts

  /** A tree node: its `FkLanguageId` when the key is present, its `NodeId`,
      its `NodeName` and its `children` (a missing list reads as empty). */
  datatype Node = Node(lang: Option<int>, id: int, name: string, children: seq<Node>)

  /** What `parse_tree` records for a node: the level at which `iternodes`
      met it, its name, and its language ids. */
  datatype Entry = Entry(level: int, name: string, lids: seq<int>)

  /** The number of nodes of a subtree. */
  function Size(n: Node): nat {
    1 + SizeAll(n.children)
  }

  function SizeAll(ns: seq<Node>): nat {
    if |ns| == 0 then 0 else Size(ns[0]) + SizeAll(ns[1..])
  }

  /** The node reached from `n` by following the child indices of `path`. */
  function At(n: Node, path: seq<nat>): Option<Node>
    decreases |path|
  {
    if |path| == 0 then Some(n)
    else if path[0] < |n.children| then At(n.children[path[0]], path[1..])
    else None
  }

  /** The node's own language id, if it carries one. */
  function Own(n: Node): seq<int> {
    if n.lang.Some? then [n.lang.value] else []
  }

  /** `list(lids(node))`. */
  function Lids(n: Node): seq<int> {
    Own(n) + LidsAll(n.children)
  }

  /** The ids `lids` yields for each child in turn. */
  function LidsAll(ns: seq<Node>): seq<int> {
    if |ns| == 0 then [] else Lids(ns[0]) + LidsAll(ns[1..])
  }

  /** `list(iternodes(node, level))`: pairs of level and node. */
  function IterNodes(n: Node, level: int): seq<(int, Node)> {
    [(level, n)] + IterAll(n.children, level + 1)
  }

  /** The pairs `iternodes` yields for each child in turn. */
  function IterAll(ns: seq<Node>, level: int): seq<(int, Node)> {
    if |ns| == 0 then [] else IterNodes(ns[0], level) + IterAll(ns[1..], level)
  }

  /** The language ids of a sequence of visited nodes, in visiting order. */
  function Langs(s: seq<(int, Node)>): seq<int> {
    if |s| == 0 then [] else Own(s[0].1) + Langs(s[1..])
  }

  /** How many of the visited nodes carry a language id. */
  function Carriers(s: seq<(int, Node)>): nat {
    if |s| == 0 then 0 else (if s[0].1.lang.Some? then 1 else 0) + Carriers(s[1..])
  }

  // ---------------------------------------------------------------------
  // Splitting the child loops

  lemma {:induction false} IterAllAppend(a: seq<Node>, b: seq<Node>, level: int)
    ensures IterAll(a + b, level) == IterAll(a, level) + IterAll(b, level)
    decreases |a|
  {
    if |a| > 0 {
      assert (a + b)[1..] == a[1..] + b;
      IterAllAppend(a[1..], b, level);
    } else {
      assert a + b == b;
    }
  }

  lemma {:induction false} LidsAllAppend(a: seq<Node>, b: seq<Node>)
    ensures LidsAll(a + b) == LidsAll(a) + LidsAll(b)
    decreases |a|
  {
    if |a| > 0 {
      assert (a + b)[1..] == a[1..] + b;
      LidsAllAppend(a[1..], b);
    } else {
      assert a + b == b;
    }
  }

  lemma {:induction false} LangsAppend(a: seq<(int, Node)>, b: seq<(int, Node)>)
    ensures Langs(a + b) == Langs(a) + Langs(b)
    ensures Carriers(a + b) == Carriers(a) + Carriers(b)
    decreases |a|
  {
    if |a| > 0 {
      assert (a + b)[1..] == a[1..] + b;
      LangsAppend(a[1..], b);
    } else {
      assert a + b == b;
    }
  }

  lemma ChildSplit(ns: seq<Node>, i: int)
    requires 0 <= i < |ns|
    ensures ns == ns[..i] + [ns[i]] + ns[i + 1..]
  {
  }

  /** `iternodes` yields the node first, at `level`, then the whole subtree of
      each child in child order, one level deeper: child `i`'s pairs form one
      contiguous block between those of its elder and younger siblings. */
  lemma IterNodesChildBlock(n: Node, level: int, i: int)
    requires 0 <= i < |n.children|
    ensures IterNodes(n, level) ==
      [(level, n)]
      + IterAll(n.children[..i], level + 1)
      + IterNodes(n.children[i], level + 1)
      + IterAll(n.children[i + 1..], level + 1)
  {
    var ns := n.children;
    ChildSplit(ns, i);
    IterAllAppend(ns[..i] + [ns[i]], ns[i + 1..], level + 1);
    IterAllAppend(ns[..i], [ns[i]], level + 1);
    assert IterAll([ns[i]], level + 1) == IterNodes(ns[i], level + 1) + IterAll([], level + 1);
  }

  /** `lids` yields the node's own id first, then the ids of each child's
      subtree in child order: each child's ids are a contiguous slice of the
      parent's. */
  lemma LidsChildSlice(n: Node, i: int)
    requires 0 <= i < |n.children|
    ensures Lids(n) ==
      Own(n) + LidsAll(n.children[..i]) + Lids(n.children[i]) + LidsAll(n.children[i + 1..])
    ensures var o := |Own(n)| + |LidsAll(n.children[..i])|;
      Lids(n)[o..o + |Lids(n.children[i])|] == Lids(n.children[i])
  {
    var ns := n.children;
    ChildSplit(ns, i);
    LidsAllAppend(ns[..i] + [ns[i]], ns[i + 1..]);
    LidsAllAppend(ns[..i], [ns[i]]);
    assert LidsAll([ns[i]]) == Lids(ns[i]) + LidsAll([]);
  }

  // ---------------------------------------------------------------------
  // Counting

  /** `iternodes` yields exactly one pair per node of the subtree. */
  lemma {:induction false} IterNodesSize(n: Node, level: int)
    ensures |IterNodes(n, level)| == Size(n)
    decreases n, 1
  {
    IterAllSize(n.children, level + 1);
  }

  lemma {:induction false} IterAllSize(ns: seq<Node>, level: int)
    ensures |IterAll(ns, level)| == SizeAll(ns)
    decreases ns, 0
  {
    if |ns| > 0 {
      IterNodesSize(ns[0], level);
      IterAllSize(ns[1..], level);
    }
  }

  /** `lids` is the sequence of language ids carried by the nodes `iternodes`
      visits, in the same (preorder) order; so it has one element per node
      that carries an `FkLanguageId`. */
  lemma {:induction false} LidsArePreorderLangs(n: Node, level: int)
    ensures Lids(n) == Langs(IterNodes(n, level))
    ensures |Lids(n)| == Carriers(IterNodes(n, level))
    decreases n, 1
  {
    LidsAllArePreorderLangs(n.children, level + 1);
    LangsAppend([(level, n)], IterAll(n.children, level + 1));
    assert Langs([(level, n)]) == Own(n) + Langs([]);
  }

  lemma {:induction false} LidsAllArePreorderLangs(ns: seq<Node>, level: int)
    ensures LidsAll(ns) == Langs(IterAll(ns, level))
    ensures |LidsAll(ns)| == Carriers(IterAll(ns, level))
    decreases ns, 0
  {
    if |ns| > 0 {
      LidsArePreorderLangs(ns[0], level);
      LidsAllArePreorderLangs(ns[1..], level);
      LangsAppend(IterNodes(ns[0], level), IterAll(ns[1..], level));
    }
  }

  // ---------------------------------------------------------------------
  // Levels are depths

  lemma {:induction false} IterAllMember(ns: seq<Node>, level: int, x: (int, Node))
    requires x in IterAll(ns, level)
    ensures exists i :: 0 <= i < |ns| && x in IterNodes(ns[i], level)
    decreases |ns|
  {
    if x !in IterNodes(ns[0], level) {
      IterAllMember(ns[1..], level, x);
      var i :| 0 <= i < |ns[1..]| && x in IterNodes(ns[1..][i], level);
      assert ns[1..][i] == ns[i + 1];
    }
  }

  lemma IterAllContains(ns: seq<Node>, level: int, i: int, x: (int, Node))
    requires 0 <= i < |ns| && x in IterNodes(ns[i], level)
    ensures x in IterAll(ns, level)
  {
    ChildSplit(ns, i);
    IterAllAppend(ns[..i] + [ns[i]], ns[i + 1..], level);
    IterAllAppend(ns[..i], [ns[i]], level);
    assert IterAll([ns[i]], level) == IterNodes(ns[i], level) + IterAll([], level);
  }

  /** Every pair `iternodes(n, level)` yields is a node of the subtree at some
      path, paired with `level` plus the length of that path. */
  lemma {:induction false} IteratedNodeHasPath(n: Node, level: int, x: (int, Node))
    requires x in IterNodes(n, level)
    ensures exists p: seq<nat> :: At(n, p) == Some(x.1) && x.0 == level + |p|
    decreases n
  {
    if x == (level, n) {
      assert At(n, []) == Some(n);
    } else {
      var ns := n.children;
      assert x in IterAll(ns, level + 1);
      IterAllMember(ns, level + 1, x);
      var i :| 0 <= i < |ns| && x in IterNodes(ns[i], level + 1);
      IteratedNodeHasPath(ns[i], level + 1, x);
      var q: seq<nat> :| At(ns[i], q) == Some(x.1) && x.0 == level + 1 + |q|;
      AtChild(n, i, q);
    }
  }

  /** Following child `i` and then `q` reaches what `q` reaches from child `i`. */
  lemma AtChild(n: Node, i: nat, q: seq<nat>)
    requires i < |n.children|
    ensures At(n, [i] + q) == At(n.children[i], q)
  {
    assert ([i] + q)[1..] == q;
  }

  /** Every node of the subtree is yielded by `iternodes(n, level)`, paired
      with `level` plus its depth below `n`. */
  lemma {:induction false} PathNodeIsIterated(n: Node, level: int, p: seq<nat>)
    requires At(n, p).Some?
    ensures (level + |p|, At(n, p).value) in IterNodes(n, level)
    decreases |p|
  {
    if |p| > 0 {
      var c := n.children[p[0]];
      PathNodeIsIterated(c, level + 1, p[1..]);
      IterAllContains(n.children, level + 1, p[0], (level + |p|, At(n, p).value));
    }
  }

  // ---------------------------------------------------------------------
  // parse_tree

  /** The dictionary assignment `parse_tree` performs for one visited pair. */
  function Assignment(x: (int, Node)): (int, Entry) {
    (x.1.id, Entry(x.0, x.1.name, Lids(x.1)))
  }

  function Assignments(s: seq<(int, Node)>): seq<(int, Entry)> {
    seq(|s|, i requires 0 <= i < |s| => Assignment(s[i]))
  }

  /** The `NodeId`s of the visited pairs `s`. */
  function NodeIds(s: seq<(int, Node)>): set<int> {
    set i | 0 <= i < |s| :: s[i].1.id
  }

  lemma AssignmentKeys(s: seq<(int, Node)>)
    ensures Dicts.KeysOf(Assignments(s)) == NodeIds(s)
  {
    var ps := Assignments(s);
    assert forall i :: 0 <= i < |s| ==> ps[i].0 == s[i].1.id;
  }

  lemma AssignmentIsLast(s: seq<(int, Node)>, i: int)
    requires 0 <= i < |s| && forall j :: i < j < |s| ==> s[j].1.id != s[i].1.id
    ensures Dicts.IsLast(Assignments(s), i)
  {
    var ps := Assignments(s);
    var tail := ps[i + 1..];
    forall j | 0 <= j < |tail|
      ensures tail[j].0 != ps[i].0
    {
      assert tail[j] == ps[i + 1 + j];
    }
  }

  /** A dict built from the assignments of `s` holds, for every id, the
      entry of the last pair with that id. */
  lemma AssignmentsLast(s: seq<(int, Node)>, d: map<int, Entry>)
    requires d.Keys == NodeIds(s)
    requires forall i :: Dicts.IsLast(Assignments(s), i) ==>
      Assignments(s)[i].0 in d && d[Assignments(s)[i].0] == Assignments(s)[i].1
    ensures forall i :: 0 <= i < |s| && (forall j :: i < j < |s| ==> s[j].1.id != s[i].1.id) ==>
      d[s[i].1.id] == Entry(s[i].0, s[i].1.name, Lids(s[i].1))
  {
    forall i | 0 <= i < |s| && (forall j :: i < j < |s| ==> s[j].1.id != s[i].1.id)
      ensures d[s[i].1.id] == Entry(s[i].0, s[i].1.name, Lids(s[i].1))
    {
      AssignmentIsLast(s, i);
    }
  }

  /** `parse_tree(tree)`: the code keys the result by `NodeId` alone (its
      doc-comment speaks of `(NodeName, NodeId)` pairs). Every `NodeId` of the
      tree is a key, and each key holds the entry of the node that `iternodes`
      visits last among those with that id. */
  function ParseTree(tree: Node): (res: map<int, Entry>)
    ensures res.Keys == NodeIds(IterNodes(tree, 0))
    ensures var s := IterNodes(tree, 0);
      forall i :: 0 <= i < |s| && (forall j :: i < j < |s| ==> s[j].1.id != s[i].1.id) ==>
        res[s[i].1.id] == Entry(s[i].0, s[i].1.name, Lids(s[i].1))
  {
    var s := IterNodes(tree, 0);
    var d := Dicts.AssignAll(Assignments(s));
    AssignmentKeys(s);
    AssignmentsLast(s, d);
    d
  }

  /** Every key of `parse_tree(tree)` is the `NodeId` of a node of the tree,
      and its entry holds that node's depth below the root (counted from 0),
      its `NodeName` and its `lids`. */
  lemma ParseTreeEntryIsNode(tree: Node, k: int)
    requires k in ParseTree(tree)
    ensures exists p: seq<nat> ::
      && At(tree, p).Some?
      && At(tree, p).value.id == k
      && ParseTree(tree)[k] == Entry(|p|, At(tree, p).value.name, Lids(At(tree, p).value))
  {
    var s := IterNodes(tree, 0);
    var ps := Assignments(s);
    AssignmentKeys(s);
    Dicts.LastAssignmentExists(ps, k);
    var i :| Dicts.IsLast(ps, i) && ps[i].0 == k;
    assert ParseTree(tree) == Dicts.AssignAll(ps);
    assert ParseTree(tree)[k] == ps[i].1;
    assert s[i] in s;
    IteratedNodeHasPath(tree, 0, s[i]);
    var p: seq<nat> :| At(tree, p) == Some(s[i].1) && s[i].0 == |p|;
  }

  /** Every node of the tree has its `NodeId` among the keys of `parse_tree(tree)`. */
  lemma ParseTreeCoversNodes(tree: Node, p: seq<nat>)
    requires At(tree, p).Some?
    ensures At(tree, p).value.id in ParseTree(tree)
  {
    PathNodeIsIterated(tree, 0, p);
    var s := IterNodes(tree, 0);
    var i :| 0 <= i < |s| && s[i] == (|p|, At(tree, p).value);
  }

  /** The pairs yielded for the children all lie at least one level below. */
  lemma IterAllDeeper(ns: seq<Node>, level: int, x: (int, Node))
    requires x in IterAll(ns, level)
    ensures x.0 >= level
  {
    IterAllMember(ns, level, x);
    var i :| 0 <= i < |ns| && x in IterNodes(ns[i], level);
    IteratedNodeHasPath(ns[i], level, x);
  }

  /** When no other node shares the root's `NodeId`, the root's entry is at
      level 0 and lists every language id of the tree, in preorder. */
  lemma ParseTreeRoot(tree: Node)
    requires forall p: seq<nat> :: |p| > 0 && At(tree, p).Some? ==> At(tree, p).value.id != tree.id
    ensures tree.id in ParseTree(tree)
    ensures ParseTree(tree)[tree.id] == Entry(0, tree.name, Lids(tree))
    ensures Lids(tree) == Langs(IterNodes(tree, 0))
  {
    var s := IterNodes(tree, 0);
    forall j | 0 < j < |s|
      ensures s[j].1.id != tree.id
    {
      var x := s[j];
      assert x == IterAll(tree.children, 1)[j - 1];
      IterAllDeeper(tree.children, 1, x);
      assert x in s;
      IteratedNodeHasPath(tree, 0, x);
    }
    assert s[0] == (0, tree);
    LidsArePreorderLangs(tree, 0);
  }
}
