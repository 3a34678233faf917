/**
 * The utility tree and its construction (addTransaction and calculateUtilities).
 *
 * The tree is kept in an arena: `nodes[0]` is the root and every other node
 * is addressed by its index; a node's `children` list (nodeLink) holds
 * indices, in the order the children were attached. A child's index is always
 * greater than its parent's, since a child is created after its parent.
 */
module PrefixTree {
  import opened Wrappers
  import opened Decimal
  import opened Transactions

  /** A tree node: its label (`name`, the item id as text), creating sequence, UT, PUT, RUT and children (nodeLink). */
  datatype Node = Node(name: string, sid: int, ut: int, put: int, rut: int, children: seq<nat>)

  /** The root main allocates before any insertion. */
  const Root: Node := Node("root", 0, 0, 0, 0, [])

  predicate IsRootRecord(n: Node) {
    n.name == "root" && n.sid == 0 && n.ut == 0 && n.put == 0 && n.rut == 0
  }

  /** Every child index lies after its parent's and inside the arena. */
  predicate ChildrenInArena(ns: seq<Node>) {
    forall i, k :: 0 <= i < |ns| && 0 <= k < |ns[i].children| ==> i < ns[i].children[k] < |ns|
  }

  /**
   * Arena well-formedness: a root, children after their parents, and no two
   * children of one node with the same name.
   */
  predicate ValidArena(ns: seq<Node>) {
    |ns| >= 1 && ChildrenInArena(ns) &&
    forall i, k, k' :: 0 <= i < |ns| && 0 <= k < k' < |ns[i].children| ==>
      ns[ns[i].children[k]].name != ns[ns[i].children[k']].name
  }

  /** Every node records PUT == 0 and RUT == UT. */
  predicate ZeroPut(ns: seq<Node>) {
    forall j :: 0 <= j < |ns| ==> ns[j].put == 0 && ns[j].rut == ns[j].ut
  }

  // ---------------------------------------------------------------------------
  // Utility statistics

  function SumUtility(items: seq<Item>): int {
    if items == [] then 0 else items[0].internalUtility + SumUtility(items[1..])
  }

  /** The position of the first item with the given id, or |items| if there is none. */
  function FirstIndex(items: seq<Item>, id: int): (k: nat)
    ensures k <= |items|
    ensures forall j :: 0 <= j < k ==> items[j].id != id
    ensures k < |items| ==> items[k].id == id
  {
    if items == [] || items[0].id == id then 0 else 1 + FirstIndex(items[1..], id)
  }

  /** What calculateUtilities accumulates in PUT: utilities up to the first item with the id. */
  function PrefixUtility(items: seq<Item>, id: int): int {
    if items == [] || items[0].id == id then 0
    else items[0].internalUtility + PrefixUtility(items[1..], id)
  }

  /** PUT is the total utility of the items before the first one whose id is the label's. */
  lemma {:induction false} PrefixUtilityIsSum(items: seq<Item>, id: int)
    ensures PrefixUtility(items, id) == SumUtility(items[..FirstIndex(items, id)])
  {
    if items != [] && items[0].id != id {
      PrefixUtilityIsSum(items[1..], id);
      assert items[..FirstIndex(items, id)][1..] == items[1..][..FirstIndex(items[1..], id)];
    }
  }

  /** PrefixUtility read from position k: stop at an item with the id, otherwise count item k. */
  lemma PrefixUtilityAt(items: seq<Item>, k: nat, id: int)
    requires k < |items|
    ensures PrefixUtility(items[k..], id)
         == if items[k].id == id then 0 else items[k].internalUtility + PrefixUtility(items[k + 1..], id)
  {
    assert items[k..][0] == items[k];
    assert items[k..][1..] == items[k + 1..];
  }

  /**
   * The node n after calculateUtilities(n, items, su), where id is the number
   * std::stoi reads from n's label.
   */
  function WithStats(n: Node, items: seq<Item>, su: int, id: int): (r: Node)
    ensures r.name == n.name && r.sid == n.sid && r.children == n.children
    ensures r.ut == su && r.put + r.rut == su
  {
    var put := PrefixUtility(items, id);
    n.(ut := su, put := put, rut := su - put)
  }

  /**
   * calculateUtilities leaves PUT as the utility of the items before the first
   * one with the label's id, and RUT as the rest of the sequence utility.
   */
  lemma WithStatsSplit(n: Node, items: seq<Item>, su: int, id: int)
    ensures var r := WithStats(n, items, su, id);
      && r.put == SumUtility(items[..FirstIndex(items, id)])
      && r.rut == su - SumUtility(items[..FirstIndex(items, id)])
  {
    PrefixUtilityIsSum(items, id);
  }

  /**
   * The node n after calculateUtilities on a transaction suffix that starts
   * with n's own item, which is how addTransaction calls it (see OwnItemStats).
   */
  function Touch(n: Node, su: int): Node {
    n.(ut := su, put := 0, rut := su)
  }

  /**
   * addTransaction passes calculateUtilities the suffix that starts with the
   * node's own item, so the loop stops at once: PUT 0 and RUT = sUtility.
   */
  lemma OwnItemStats(n: Node, t: seq<Item>, su: int)
    requires t != []
    ensures WithStats(n, t, su, t[0].id) == Touch(n, su)
  {
  }

  /** The number calculateUtilities reads from a label: std::stoi, which throws on a non-number. */
  function LabelNumber(name: string, items: seq<Item>): int
    requires items != [] ==> StoI(name).Some?
  {
    if items == [] then 0 else StoI(name).value
  }

  // ---------------------------------------------------------------------------
  // Insertion, as functions on the arena

  /** The first of kids (in nodeLink order) whose name is name. */
  function FindLabel(ns: seq<Node>, kids: seq<nat>, name: string): (r: Option<nat>)
    requires forall k :: 0 <= k < |kids| ==> kids[k] < |ns|
    ensures r.Some? ==> r.value in kids && ns[r.value].name == name
    ensures r.None? <==> forall k :: 0 <= k < |kids| ==> ns[kids[k]].name != name
  {
    if kids == [] then None
    else if ns[kids[0]].name == name then Some(kids[0])
    else FindLabel(ns, kids[1..], name)
  }

  /** Rewriting a node's statistics keeps the arena well formed. */
  lemma UpdateKeepsValid(ns: seq<Node>, c: nat, n: Node)
    requires ValidArena(ns) && c < |ns|
    requires n.name == ns[c].name && n.children == ns[c].children
    ensures ValidArena(ns[c := n])
  {
    var ns' := ns[c := n];
    forall i | 0 <= i < |ns'| ensures ns'[i].children == ns[i].children && ns'[i].name == ns[i].name {
    }
  }

  /** The arena after a newNode node (empty nodeLink) is appended and linked under `at`. */
  function Attach(ns: seq<Node>, at: nat, newNode: Node): (linked: seq<Node>)
    requires at < |ns|
  {
    var grown := ns + [newNode];
    grown[at := grown[at].(children := grown[at].children + [|ns|])]
  }

  /** Attaching a child whose label no sibling has keeps the arena well formed. */
  lemma AttachKeepsValid(ns: seq<Node>, at: nat, newNode: Node)
    requires ValidArena(ns) && at < |ns| && newNode.children == []
    requires forall k :: 0 <= k < |ns[at].children| ==> ns[ns[at].children[k]].name != newNode.name
    ensures ValidArena(Attach(ns, at, newNode))
  {
    var linked := Attach(ns, at, newNode);
    var c := |ns|;
    assert forall i :: 0 <= i < |ns| && i != at ==> linked[i] == ns[i];
    assert linked[c] == newNode;
    assert linked[at].children == ns[at].children + [c];
    forall i, k | 0 <= i < |linked| && 0 <= k < |linked[i].children|
      ensures i < linked[i].children[k] < |linked|
    {
      if i == at && k == |ns[at].children| {
      } else if i < |ns| {
        assert linked[i].children[k] == ns[i].children[k];
      }
    }
    forall i, k, k' | 0 <= i < |linked| && 0 <= k < k' < |linked[i].children|
      ensures linked[linked[i].children[k]].name != linked[linked[i].children[k']].name
    {
      if i < |ns| {
        assert linked[i].children[k] == ns[i].children[k];
        if i == at && k' == |ns[at].children| {
          assert linked[linked[i].children[k']] == newNode;
        } else {
          assert linked[i].children[k'] == ns[i].children[k'];
        }
      }
    }
  }

  /**
   * The parent table of a tree: every node but the root hangs under exactly
   * one earlier node, and every nodeLink entry names its holder as parent.
   */
  ghost predicate Linked(ns: seq<Node>, parent: seq<int>) {
    && |parent| == |ns| && (|ns| > 0 ==> parent[0] == -1)
    && (forall j :: 0 < j < |ns| ==> 0 <= parent[j] < j && j in ns[parent[j]].children)
    && (forall i, k :: 0 <= i < |ns| && 0 <= k < |ns[i].children| ==> ns[i].children[k] < |ns| && parent[ns[i].children[k]] == i)
  }

  /** Rewriting a node's statistics keeps the parent table. */
  lemma UpdateKeepsLinked(ns: seq<Node>, parent: seq<int>, c: nat, n: Node)
    requires Linked(ns, parent) && c < |ns| && n.children == ns[c].children
    ensures Linked(ns[c := n], parent)
  {
    var ns' := ns[c := n];
    assert forall i :: 0 <= i < |ns'| ==> ns'[i].children == ns[i].children;
  }

  /** Attaching a new leaf under `at` extends the parent table with `at`. */
  lemma AttachKeepsLinked(ns: seq<Node>, parent: seq<int>, at: nat, newNode: Node)
    requires Linked(ns, parent) && at < |ns| && newNode.children == []
    ensures Linked(Attach(ns, at, newNode), parent + [at])
  {
    var linked := Attach(ns, at, newNode);
    var parent' := parent + [at];
    forall j | 0 < j < |linked| ensures 0 <= parent'[j] < j && j in linked[parent'[j]].children {
      if j < |ns| {
        assert ns[parent[j]].children <= linked[parent[j]].children;
      }
    }
    forall i, k | 0 <= i < |linked| && 0 <= k < |linked[i].children|
      ensures linked[i].children[k] < |linked| && parent'[linked[i].children[k]] == i
    {
      if i == at && k == |ns[at].children| {
      } else {
        assert linked[i].children[k] == ns[i].children[k];
      }
    }
  }

  /** The arena after one level of addTransaction, and the child it went to. */
  datatype Step = Step(nodes: seq<Node>, child: nat)

  /**
   * One level of addTransaction at node `at`: find the child labelled with the
   * first item's id, or create it (recording sid) and append it to nodeLink;
   * then set the child's statistics from the transaction t.
   */
  function Descend(ns: seq<Node>, at: nat, t: seq<Item>, su: int, sid: int): (s: Step)
    requires ValidArena(ns) && at < |ns| && t != []
    ensures ValidArena(s.nodes) && at < s.child < |s.nodes| && s.child in s.nodes[at].children
    ensures s.nodes[s.child].name == DecimalString(t[0].id)
    ensures s.nodes[s.child].ut == su && s.nodes[s.child].put == 0 && s.nodes[s.child].rut == su
  {
    var name := DecimalString(t[0].id);
    match FindLabel(ns, ns[at].children, name)
    case Some(c) =>
      UpdateKeepsValid(ns, c, Touch(ns[c], su));
      Step(ns[c := Touch(ns[c], su)], c)
    case None =>
      var c := |ns|;
      var linked := Attach(ns, at, Node(name, sid, 0, 0, 0, []));
      AttachKeepsValid(ns, at, Node(name, sid, 0, 0, 0, []));
      UpdateKeepsValid(linked, c, Touch(linked[c], su));
      Step(linked[c := Touch(linked[c], su)], c)
  }

  /**
   * What else one level changes: a reused child keeps its SID and nodeLink and
   * `at` is untouched; a created child is appended after every existing node,
   * carries the new SID and an empty nodeLink, has a label no earlier sibling
   * has, and goes to the end of the nodeLink of `at`; no other node changes.
   */
  lemma DescendFrame(ns: seq<Node>, at: nat, t: seq<Item>, su: int, sid: int, s: Step)
    requires ValidArena(ns) && at < |ns| && t != [] && s == Descend(ns, at, t, su, sid)
    ensures s.child < |ns| ==>
      && |s.nodes| == |ns| && s.child in ns[at].children && s.nodes[at] == ns[at]
      && s.nodes[s.child].sid == ns[s.child].sid && s.nodes[s.child].children == ns[s.child].children
    ensures s.child >= |ns| ==>
      && s.child == |ns| && |s.nodes| == |ns| + 1
      && (forall k :: 0 <= k < |ns[at].children| ==> ns[ns[at].children[k]].name != DecimalString(t[0].id))
      && s.nodes[s.child].sid == sid && s.nodes[s.child].children == []
      && s.nodes[at] == ns[at].(children := ns[at].children + [s.child])
    ensures forall j :: 0 <= j < |ns| && j != at && j != s.child ==> s.nodes[j] == ns[j]
  {
  }

  /**
   * addTransaction(at, t, su, sid): one level per item, stopping after the
   * first child whose UT is below minUtility.
   */
  function Insert(ns: seq<Node>, at: nat, t: seq<Item>, su: int, sid: int, minUtility: int): (r: seq<Node>)
    requires ValidArena(ns) && at < |ns|
    ensures ValidArena(r) && |ns| <= |r| <= |ns| + |t|
    decreases |t|
  {
    if t == [] then ns
    else
      var s := Descend(ns, at, t, su, sid);
      if s.nodes[s.child].ut < minUtility then s.nodes
      else Insert(s.nodes, s.child, t[1..], su, sid, minUtility)
  }

  /** Whether b is a with possibly more children appended to its nodeLink. */
  predicate Extends(a: Node, b: Node) {
    b.name == a.name && b.sid == a.sid && a.children <= b.children
  }

  /** Whether b is a with at most its nodeLink changed. */
  predicate SameRecord(a: Node, b: Node) {
    b.name == a.name && b.sid == a.sid && b.ut == a.ut && b.put == a.put && b.rut == a.rut
  }

  /** An insertion below `at` leaves the nodes before `at` alone and changes only the nodeLink of `at`. */
  lemma {:induction false} InsertKeepsEarlier(ns: seq<Node>, at: nat, t: seq<Item>, su: int, sid: int, minUtility: int, r: seq<Node>)
    requires ValidArena(ns) && at < |ns| && r == Insert(ns, at, t, su, sid, minUtility)
    ensures forall j :: 0 <= j < at ==> r[j] == ns[j]
    ensures SameRecord(ns[at], r[at])
    decreases |t|
  {
    if t != [] {
      var s := Descend(ns, at, t, su, sid);
      if s.nodes[s.child].ut >= minUtility {
        InsertKeepsEarlier(s.nodes, s.child, t[1..], su, sid, minUtility, r);
      }
    }
  }

  /** One level never relabels a node or changes its SID, only appends to nodeLinks, and stamps a node it creates with sid. */
  lemma DescendExtends(ns: seq<Node>, at: nat, t: seq<Item>, su: int, sid: int, j: nat)
    requires ValidArena(ns) && at < |ns| && t != []
    ensures var s := Descend(ns, at, t, su, sid);
      && (j < |ns| ==> Extends(ns[j], s.nodes[j]))
      && (|ns| <= j < |s.nodes| ==> s.nodes[j].sid == sid)
  {
    var s := Descend(ns, at, t, su, sid);
    if j < |ns| && j == at {
      assert ns[j].children <= s.nodes[j].children;
    }
  }

  lemma ExtendsTransitive(a: Node, b: Node, c: Node)
    requires Extends(a, b) && Extends(b, c)
    ensures Extends(a, c)
  {
    assert a.children == b.children[..|a.children|];
    assert b.children[..|a.children|] == c.children[..|b.children|][..|a.children|];
  }

  /** Node j after an insertion: an old node keeps its label and SID and only gains children; a new one carries sid. */
  lemma {:induction false} InsertExtendsAt(ns: seq<Node>, at: nat, t: seq<Item>, su: int, sid: int, minUtility: int,
                                           r: seq<Node>, j: nat)
    requires ValidArena(ns) && at < |ns| && r == Insert(ns, at, t, su, sid, minUtility) && j < |r|
    ensures j < |ns| ==> Extends(ns[j], r[j])
    ensures j >= |ns| ==> r[j].sid == sid
    decreases |t|
  {
    if t == [] {
      assert Extends(ns[j], ns[j]);
    } else {
      var s := Descend(ns, at, t, su, sid);
      DescendExtends(ns, at, t, su, sid, j);
      if s.nodes[s.child].ut >= minUtility {
        InsertExtendsAt(s.nodes, s.child, t[1..], su, sid, minUtility, r, j);
        if j < |ns| {
          ExtendsTransitive(ns[j], s.nodes[j], r[j]);
        }
      }
    }
  }

  /**
   * An insertion never relabels a node or changes its SID and only appends to
   * nodeLinks; every node it creates carries its own SID.
   */
  lemma InsertExtends(ns: seq<Node>, at: nat, t: seq<Item>, su: int, sid: int, minUtility: int, r: seq<Node>)
    requires ValidArena(ns) && at < |ns| && r == Insert(ns, at, t, su, sid, minUtility)
    ensures forall j :: 0 <= j < |ns| ==> Extends(ns[j], r[j])
    ensures forall j :: |ns| <= j < |r| ==> r[j].sid == sid
  {
    forall j | 0 <= j < |r|
      ensures j < |ns| ==> Extends(ns[j], r[j])
      ensures j >= |ns| ==> r[j].sid == sid
    {
      InsertExtendsAt(ns, at, t, su, sid, minUtility, r, j);
    }
  }

  /** The tree main builds: sequence i (counting from 0) inserted at the root with SID i + 1. */
  function Built(seqs: seq<Sequence>, minUtility: int): (r: seq<Node>)
    ensures ValidArena(r) && IsRootRecord(r[0])
    ensures forall j :: 0 < j < |r| ==> 1 <= r[j].sid <= |seqs|
    decreases |seqs|
  {
    if seqs == [] then [Root]
    else
      var last := seqs[|seqs| - 1];
      var before := Built(seqs[..|seqs| - 1], minUtility);
      var r := Insert(before, 0, last.items, last.sUtility, |seqs|, minUtility);
      InsertKeepsEarlier(before, 0, last.items, last.sUtility, |seqs|, minUtility, r);
      InsertExtends(before, 0, last.items, last.sUtility, |seqs|, minUtility, r);
      r
  }

  // ---------------------------------------------------------------------------
  // The tree as the source keeps it: nodes updated in place

  class UtilityTree {
    var nodes: seq<Node>
    /** The parent of each node (-1 for the root): every node hangs under exactly one parent. */
    ghost var parent: seq<int>

    ghost predicate Valid()
      reads this
    {
      ValidArena(nodes) && IsRootRecord(nodes[0]) && Linked(nodes, parent)
    }

    constructor ()
      ensures Valid() && nodes == [Root]
    {
      nodes := [Root];
      parent := [-1];
    }

    /** The child lookup of addTransaction: the first child in nodeLink with the name. */
    method FindChild(at: nat, name: string) returns (r: Option<nat>)
      requires Valid() && at < |nodes|
      ensures r == FindLabel(nodes, nodes[at].children, name)
      ensures r.Some? ==> r.value in nodes[at].children && nodes[r.value].name == name
      ensures r.None? <==> forall k :: 0 <= k < |nodes[at].children| ==> nodes[nodes[at].children[k]].name != name
    {
      var kids := nodes[at].children;
      var k := 0;
      while k < |kids|
        invariant 0 <= k <= |kids|
        invariant FindLabel(nodes, kids[k..], name) == FindLabel(nodes, kids, name)
      {
        if nodes[kids[k]].name == name {
          return Some(kids[k]);
        }
        k := k + 1;
      }
      return None;
    }

    /** calculateUtilities on node c: UT, PUT and RUT reset, then PUT/RUT adjusted item by item. */
    method CalculateUtilities(c: nat, items: seq<Item>, su: int)
      requires Valid() && 0 < c < |nodes|
      requires items != [] ==> StoI(nodes[c].name).Some?
      modifies this
      ensures Valid() && parent == old(parent)
      ensures nodes == old(nodes)[c := WithStats(old(nodes)[c], items, su, LabelNumber(old(nodes)[c].name, items))]
    {
      ghost var id := LabelNumber(nodes[c].name, items);
      nodes := nodes[c := nodes[c].(ut := su, put := 0, rut := su)];
      var k := 0;
      while k < |items|
        invariant 0 <= k <= |items| && |nodes| == |old(nodes)| && parent == old(parent)
        invariant nodes == old(nodes)[c := old(nodes)[c].(ut := su, put := nodes[c].put, rut := su - nodes[c].put)]
        invariant nodes[c].put + PrefixUtility(items[k..], id) == PrefixUtility(items, id)
        invariant k < |items| ==> StoI(nodes[c].name) == Some(id)
      {
        PrefixUtilityAt(items, k, id);
        if StoI(nodes[c].name).value == items[k].id {
          break;
        }
        nodes := nodes[c := nodes[c].(put := nodes[c].put + items[k].internalUtility,
                                      rut := nodes[c].rut - items[k].internalUtility)];
        k := k + 1;
      }
      if k == |items| {
        assert items[k..] == [];
      }
      UpdateKeepsValid(old(nodes), c, WithStats(old(nodes)[c], items, su, id));
      UpdateKeepsLinked(old(nodes), parent, c, WithStats(old(nodes)[c], items, su, id));
    }

    /** The new-node branch of addTransaction: create the child and push it onto nodeLink of `at`. */
    method NewChild(at: nat, name: string, sid: int) returns (c: nat)
      requires Valid() && at < |nodes|
      requires forall k :: 0 <= k < |nodes[at].children| ==> nodes[nodes[at].children[k]].name != name
      modifies this
      ensures Valid() && c == |old(nodes)|
      ensures nodes == Attach(old(nodes), at, Node(name, sid, 0, 0, 0, []))
    {
      c := |nodes|;
      AttachKeepsValid(nodes, at, Node(name, sid, 0, 0, 0, []));
      AttachKeepsLinked(nodes, parent, at, Node(name, sid, 0, 0, 0, []));
      nodes := nodes + [Node(name, sid, 0, 0, 0, [])];
      nodes := nodes[at := nodes[at].(children := nodes[at].children + [c])];
      parent := parent + [at];
    }

    /** addTransaction(at, t, su, sid) with the threshold minUtility. */
    method AddTransaction(at: nat, t: seq<Item>, su: int, sid: int, minUtility: int)
      requires Valid() && at < |nodes|
      modifies this
      ensures Valid()
      ensures nodes == Insert(old(nodes), at, t, su, sid, minUtility)
      decreases |t|
    {
      if t == [] {
        return;
      }
      ghost var step := Descend(nodes, at, t, su, sid);
      var name := DecimalString(t[0].id);
      var found := FindChild(at, name);
      var child: nat;
      if found.None? {
        child := NewChild(at, name, sid);
      } else {
        child := found.value;
      }
      assert child == step.child;
      StoIDecimal(t[0].id);
      ghost var linked := nodes;
      CalculateUtilities(child, t, su);
      OwnItemStats(linked[child], t, su);
      assert nodes == step.nodes;
      if nodes[child].ut < minUtility {
        return;
      }
      AddTransaction(child, t[1..], su, sid, minUtility);
    }
  }
}
