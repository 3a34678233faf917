/**
 * Rule generation (treeGrowth). A node with exactly one child yields one
 * single-path rule: the labels met by following the first child down to a
 * leaf, with the sum of their UTs. Any other node yields, for each child in
 * nodeLink order whose UT reaches the threshold, a rule carrying that child's
 * SID, UT, PUT and RUT, followed by the rules grown below that child with the
 * child's label appended (without separator) to the antecedent.
 */
module RuleGeneration {
  import opened Wrappers
  import opened PrefixTree

  /** An emitted rule, as a record rather than as the text written to the output file and the console. */
  datatype Rule =
    | Branch(antecedent: string, name: string, sid: int, ut: int, put: int, rut: int)
    | PathRule(antecedent: string, labels: seq<string>, cumulative: int)

  /** Whether p walks from j down first children to a leaf. */
  predicate IsFirstChildWalk(ns: seq<Node>, j: nat, p: seq<nat>) {
    && |p| >= 1 && p[0] == j
    && (forall k :: 0 <= k < |p| ==> p[k] < |ns|)
    && (forall k :: 0 <= k < |p| - 1 ==> ns[p[k]].children != [] && p[k + 1] == ns[p[k]].children[0])
    && ns[p[|p| - 1]].children == []
  }

  /** The nodes met by starting at j and following the first child until a leaf. */
  function Chain(ns: seq<Node>, j: nat): (p: seq<nat>)
    requires ValidArena(ns) && j < |ns|
    ensures IsFirstChildWalk(ns, j, p)
    decreases |ns| - j
  {
    if ns[j].children == [] then [j]
    else
      var rest := Chain(ns, ns[j].children[0]);
      assert forall k :: 0 < k < |rest| + 1 ==> ([j] + rest)[k] == rest[k - 1];
      [j] + rest
  }

  /** The first-child walk from j is unique: it is Chain. */
  lemma {:induction false} WalkIsChain(ns: seq<Node>, j: nat, p: seq<nat>)
    requires ValidArena(ns) && j < |ns| && IsFirstChildWalk(ns, j, p)
    ensures p == Chain(ns, j)
    decreases |ns| - j
  {
    if |p| == 1 {
      assert ns[j].children == [];
    } else {
      var first := ns[j].children[0];
      var tail := p[1..];
      assert tail[0] == first;
      assert forall k :: 0 <= k < |tail| ==> tail[k] == p[k + 1];
      assert IsFirstChildWalk(ns, first, tail);
      WalkIsChain(ns, first, tail);
      assert p == [j] + tail;
    }
  }

  function Labels(ns: seq<Node>, p: seq<nat>): (ls: seq<string>)
    requires forall k :: 0 <= k < |p| ==> p[k] < |ns|
    ensures |ls| == |p| && forall k :: 0 <= k < |p| ==> ls[k] == ns[p[k]].name
  {
    seq(|p|, k requires 0 <= k < |p| => ns[p[k]].name)
  }

  /** The sum of UT over the nodes p. */
  function SumUT(ns: seq<Node>, p: seq<nat>): int
    requires forall k :: 0 <= k < |p| ==> p[k] < |ns|
  {
    if p == [] then 0 else SumUT(ns, p[..|p| - 1]) + ns[p[|p| - 1]].ut
  }

  /** One more node of a walk: its label is appended. */
  lemma LabelsStep(ns: seq<Node>, p: seq<nat>, pos: nat)
    requires forall k :: 0 <= k < |p| ==> p[k] < |ns|
    requires pos < |p|
    ensures Labels(ns, p[..pos + 1]) == Labels(ns, p[..pos]) + [ns[p[pos]].name]
  {
    var before := Labels(ns, p[..pos]);
    var after := Labels(ns, p[..pos + 1]);
    assert |after| == |before| + 1;
    assert forall k :: 0 <= k < pos ==> after[k] == before[k];
    assert after[pos] == ns[p[pos]].name;
  }

  /** One more node of a walk: its UT is added. */
  lemma SumStep(ns: seq<Node>, p: seq<nat>, pos: nat)
    requires forall k :: 0 <= k < |p| ==> p[k] < |ns|
    requires pos < |p|
    ensures SumUT(ns, p[..pos + 1]) == SumUT(ns, p[..pos]) + ns[p[pos]].ut
  {
    assert p[..pos + 1][..pos] == p[..pos];
  }

  /** The single-path rule grown from the only child j, with antecedent y. */
  function SinglePath(ns: seq<Node>, j: nat, y: string): Rule
    requires ValidArena(ns) && j < |ns|
  {
    var p := Chain(ns, j);
    PathRule(y, Labels(ns, p), SumUT(ns, p))
  }

  /** The rule emitted for child c of a node grown with antecedent y. */
  function BranchOf(ns: seq<Node>, c: nat, y: string): Rule
    requires c < |ns|
  {
    Branch(y, ns[c].name, ns[c].sid, ns[c].ut, ns[c].put, ns[c].rut)
  }

  /** treeGrowth(i, y): what it emits, in order. */
  function GrowthAt(ns: seq<Node>, i: nat, y: string, minUtility: int): seq<Rule>
    requires ValidArena(ns) && i < |ns|
    decreases |ns| - i, 1, 0
  {
    if |ns[i].children| == 1 then [SinglePath(ns, ns[i].children[0], y)]
    else ChildRules(ns, i, 0, y, minUtility)
  }

  /** The rules treeGrowth emits for the children of i from position k of nodeLink on. */
  function ChildRules(ns: seq<Node>, i: nat, k: nat, y: string, minUtility: int): seq<Rule>
    requires ValidArena(ns) && i < |ns| && k <= |ns[i].children|
    decreases |ns| - i, 0, |ns[i].children| - k
  {
    if k == |ns[i].children| then []
    else
      var c := ns[i].children[k];
      (if ns[c].ut >= minUtility then [BranchOf(ns, c, y)] + GrowthAt(ns, c, y + ns[c].name, minUtility) else [])
      + ChildRules(ns, i, k + 1, y, minUtility)
  }

  /** treeGrowth on a node that may be null. */
  function Growth(ns: seq<Node>, node: Option<nat>, y: string, minUtility: int): seq<Rule>
    requires ValidArena(ns) && (node.Some? ==> node.value < |ns|)
  {
    match node
    case None => []
    case Some(i) => GrowthAt(ns, i, y, minUtility)
  }

  // ---------------------------------------------------------------------------
  // What the emitted rules say about the tree

  /**
   * A node with exactly one child emits one path rule and nothing else, with
   * no threshold test: its labels are those of the first-child walk from that
   * child, and its cumulative utility is their UT sum.
   */
  lemma SinglePathRule(ns: seq<Node>, i: nat, y: string, minUtility: int)
    requires ValidArena(ns) && i < |ns| && |ns[i].children| == 1
    ensures var rules := GrowthAt(ns, i, y, minUtility);
      && |rules| == 1 && rules[0].PathRule? && rules[0].antecedent == y
      && IsFirstChildWalk(ns, ns[i].children[0], Chain(ns, ns[i].children[0]))
      && (forall p :: IsFirstChildWalk(ns, ns[i].children[0], p) ==> p == Chain(ns, ns[i].children[0]))
      && rules[0].labels == Labels(ns, Chain(ns, ns[i].children[0]))
      && rules[0].cumulative == SumUT(ns, Chain(ns, ns[i].children[0]))
  {
    forall p | IsFirstChildWalk(ns, ns[i].children[0], p) ensures p == Chain(ns, ns[i].children[0]) {
      WalkIsChain(ns, ns[i].children[0], p);
    }
  }

  /** Whether j lies in the subtree below i: a child of i, or below one of its children. */
  predicate Below(ns: seq<Node>, i: nat, j: nat)
    requires ValidArena(ns) && i < |ns|
    decreases |ns| - i
  {
    exists k :: 0 <= k < |ns[i].children| && (ns[i].children[k] == j || Below(ns, ns[i].children[k], j))
  }

  /** What every emitted rule tells about the subtree it came from. */
  predicate Faithful(ns: seq<Node>, i: nat, y: string, minUtility: int, r: Rule)
    requires ValidArena(ns) && i < |ns|
  {
    match r
    case Branch(a, name, sid, ut, put, rut) =>
      && y <= a && ut >= minUtility
      && exists j :: i < j < |ns| && Below(ns, i, j) && ns[j] == Node(name, sid, ut, put, rut, ns[j].children)
    case PathRule(a, labels, cumulative) =>
      && y <= a
      && exists p :: i <= p < |ns| && (p == i || Below(ns, i, p)) && |ns[p].children| == 1
           && labels == Labels(ns, Chain(ns, ns[p].children[0]))
           && cumulative == SumUT(ns, Chain(ns, ns[p].children[0]))
  }

  /** A rule faithful to the subtree of child k of i, under a longer antecedent, is faithful to the subtree of i. */
  lemma FaithfulWiden(ns: seq<Node>, i: nat, k: nat, y: string, y': string, minUtility: int, r: Rule)
    requires ValidArena(ns) && i < |ns| && k < |ns[i].children| && y <= y'
    requires Faithful(ns, ns[i].children[k], y', minUtility, r)
    ensures Faithful(ns, i, y, minUtility, r)
  {
    var c := ns[i].children[k];
    if r.Branch? {
      var j :| c < j < |ns| && Below(ns, c, j) && ns[j] == Node(r.name, r.sid, r.ut, r.put, r.rut, ns[j].children);
      assert Below(ns, i, j);
    } else {
      var p :| c <= p < |ns| && (p == c || Below(ns, c, p)) && |ns[p].children| == 1
        && r.labels == Labels(ns, Chain(ns, ns[p].children[0]))
        && r.cumulative == SumUT(ns, Chain(ns, ns[p].children[0]));
      assert Below(ns, i, p);
    }
  }

  /**
   * Soundness of treeGrowth: a branch rule copies the label, SID, UT, PUT and
   * RUT of a node in the subtree below i and passed the threshold; a path rule
   * is the first-child walk from the only child of i or of a node below it;
   * every antecedent extends y.
   */
  lemma {:induction false} GrowthAtSound(ns: seq<Node>, i: nat, y: string, minUtility: int)
    requires ValidArena(ns) && i < |ns|
    ensures forall r :: r in GrowthAt(ns, i, y, minUtility) ==> Faithful(ns, i, y, minUtility, r)
    decreases |ns| - i, 1, 0
  {
    if |ns[i].children| == 1 {
      var j := ns[i].children[0];
      assert Faithful(ns, i, y, minUtility, SinglePath(ns, j, y));
    } else {
      ChildRulesSound(ns, i, 0, y, minUtility);
    }
  }

  lemma {:induction false} ChildRulesSound(ns: seq<Node>, i: nat, k: nat, y: string, minUtility: int)
    requires ValidArena(ns) && i < |ns| && k <= |ns[i].children|
    ensures forall r :: r in ChildRules(ns, i, k, y, minUtility) ==> Faithful(ns, i, y, minUtility, r)
    decreases |ns| - i, 0, |ns[i].children| - k
  {
    if k < |ns[i].children| {
      var c := ns[i].children[k];
      ChildRulesSound(ns, i, k + 1, y, minUtility);
      if ns[c].ut >= minUtility {
        var y' := y + ns[c].name;
        GrowthAtSound(ns, c, y', minUtility);
        forall r | r in GrowthAt(ns, c, y', minUtility) ensures Faithful(ns, i, y, minUtility, r) {
          FaithfulWiden(ns, i, k, y, y', minUtility, r);
        }
        assert Faithful(ns, i, y, minUtility, BranchOf(ns, c, y)) by {
          assert Below(ns, i, c);
          assert ns[c] == Node(ns[c].name, ns[c].sid, ns[c].ut, ns[c].put, ns[c].rut, ns[c].children);
        }
      }
    }
  }

  /**
   * Every child at position m >= k of nodeLink whose UT reaches the threshold
   * gets its branch rule, with antecedent y, among the rules for positions k on.
   */
  lemma {:induction false} EveryPassingChildEmitted(ns: seq<Node>, i: nat, k: nat, y: string, minUtility: int, m: nat)
    requires ValidArena(ns) && i < |ns| && k <= m < |ns[i].children|
    requires ns[ns[i].children[m]].ut >= minUtility
    ensures BranchOf(ns, ns[i].children[m], y) in ChildRules(ns, i, k, y, minUtility)
    decreases m - k
  {
    if k < m {
      EveryPassingChildEmitted(ns, i, k + 1, y, minUtility, m);
    }
  }

  /** A child below the threshold emits nothing and is not grown. */
  lemma {:induction false} FailingChildSkipped(ns: seq<Node>, i: nat, k: nat, y: string, minUtility: int)
    requires ValidArena(ns) && i < |ns| && k < |ns[i].children|
    requires ns[ns[i].children[k]].ut < minUtility
    ensures ChildRules(ns, i, k, y, minUtility) == ChildRules(ns, i, k + 1, y, minUtility)
  {
    assert [] + ChildRules(ns, i, k + 1, y, minUtility) == ChildRules(ns, i, k + 1, y, minUtility);
  }

  /** A leaf and a null node emit nothing. */
  lemma LeafEmitsNothing(ns: seq<Node>, node: Option<nat>, y: string, minUtility: int)
    requires ValidArena(ns) && (node.Some? ==> node.value < |ns| && ns[node.value].children == [])
    ensures Growth(ns, node, y, minUtility) == []
  {
    if node.Some? {
      assert ChildRules(ns, node.value, 0, y, minUtility) == [];
    }
  }

  // ---------------------------------------------------------------------------
  // treeGrowth as the source runs it: a walk for the single path, a loop over nodeLink

  /** The single-path loop: follow the first child from j, collecting labels and summing UT. */
  method WalkSinglePath(tree: UtilityTree, j: nat, y: string) returns (rule: Rule)
    requires tree.Valid() && j < |tree.nodes|
    ensures rule == SinglePath(tree.nodes, j, y)
  {
    var ns := tree.nodes;
    ghost var walk := Chain(ns, j);
    var current: Option<nat> := Some(j);
    var labels: seq<string> := [];
    var cumulative := 0;
    ghost var pos: nat := 0;
    while current.Some?
      invariant pos <= |walk|
      invariant current.Some? <==> pos < |walk|
      invariant current.Some? ==> current.value == walk[pos]
      invariant labels == Labels(ns, walk[..pos])
      invariant cumulative == SumUT(ns, walk[..pos])
      decreases |walk| - pos
    {
      var n := current.value;
      LabelsStep(ns, walk, pos);
      SumStep(ns, walk, pos);
      labels := labels + [ns[n].name];
      cumulative := cumulative + ns[n].ut;
      pos := pos + 1;
      if ns[n].children != [] {
        current := Some(ns[n].children[0]);
      } else {
        current := None;
      }
    }
    assert walk[..pos] == walk;
    rule := PathRule(y, labels, cumulative);
  }

  /** treeGrowth(node, y): the rules it writes, in the order it writes them. */
  method TreeGrowth(tree: UtilityTree, node: Option<nat>, y: string, minUtility: int) returns (rules: seq<Rule>)
    requires tree.Valid() && (node.Some? ==> node.value < |tree.nodes|)
    ensures rules == Growth(tree.nodes, node, y, minUtility)
    decreases if node.Some? then |tree.nodes| - node.value else 0
  {
    if node.None? {
      return [];
    }
    var i := node.value;
    var kids := tree.nodes[i].children;
    if |kids| == 1 {
      var rule := WalkSinglePath(tree, kids[0], y);
      return [rule];
    }
    rules := [];
    for k := 0 to |kids|
      invariant rules + ChildRules(tree.nodes, i, k, y, minUtility) == ChildRules(tree.nodes, i, 0, y, minUtility)
    {
      var c := kids[k];
      if tree.nodes[c].ut >= minUtility {
        var grown := TreeGrowth(tree, Some(c), y + tree.nodes[c].name, minUtility);
        rules := rules + [BranchOf(tree.nodes, c, y)] + grown;
      }
    }
  }
}
