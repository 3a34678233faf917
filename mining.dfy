/**
 * The mining run: every parsed sequence is inserted at the root in input
 * order, sequence i (counting from 0) with SID i + 1, and rules are then
 * grown from the root with an empty antecedent.
 */
module Mining {
  import opened Wrappers
  import opened Decimal
  import opened Transactions
  import opened PrefixTree
  import opened InsertionPath
  import opened RuleGeneration

  /** The threshold the program is compiled with. */
  const DefaultMinUtility := 65

  /** The rules a run over seqs writes, in order. */
  function Mined(seqs: seq<Sequence>, minUtility: int): seq<Rule> {
    Growth(Built(seqs, minUtility), Some(0), "", minUtility)
  }

  /** The build loop: a fresh root, then addTransaction for each sequence with SID i + 1. */
  method BuildTree(seqs: seq<Sequence>, minUtility: int) returns (tree: UtilityTree)
    ensures fresh(tree) && tree.Valid()
    ensures tree.nodes == Built(seqs, minUtility)
  {
    tree := new UtilityTree();
    for i := 0 to |seqs|
      invariant tree.Valid()
      invariant tree.nodes == Built(seqs[..i], minUtility)
    {
      assert seqs[..i + 1][..i] == seqs[..i];
      tree.AddTransaction(0, seqs[i].items, seqs[i].sUtility, i + 1, minUtility);
    }
    assert seqs[..|seqs|] == seqs;
  }

  /** Build the tree, then grow rules from its root. */
  method Mine(seqs: seq<Sequence>, minUtility: int) returns (rules: seq<Rule>)
    ensures rules == Mined(seqs, minUtility)
  {
    var tree := BuildTree(seqs, minUtility);
    rules := TreeGrowth(tree, Some(0), "", minUtility);
  }

  /**
   * What a run's output says about the input: a branch rule names a node
   * created by one of the sequences (SID between 1 and their count), passed
   * the threshold, and carries PUT 0 and RUT equal to UT; a path rule follows
   * a first-child walk from some node, so it has at least one label.
   */
  lemma MinedRulesSound(seqs: seq<Sequence>, minUtility: int)
    ensures forall r :: r in Mined(seqs, minUtility) && r.Branch? ==>
      && r.ut >= minUtility && r.put == 0 && r.rut == r.ut && 1 <= r.sid <= |seqs|
    ensures forall r :: r in Mined(seqs, minUtility) && r.PathRule? ==> |r.labels| >= 1
  {
    var ns := Built(seqs, minUtility);
    GrowthAtSound(ns, 0, "", minUtility);
    BuiltZeroPut(seqs, minUtility);
    forall r | r in Mined(seqs, minUtility)
      ensures r.Branch? ==> r.ut >= minUtility && r.put == 0 && r.rut == r.ut && 1 <= r.sid <= |seqs|
      ensures r.PathRule? ==> |r.labels| >= 1
    {
      assert Faithful(ns, 0, "", minUtility, r);
      if r.Branch? {
        var j :| 0 < j < |ns| && ns[j] == Node(r.name, r.sid, r.ut, r.put, r.rut, ns[j].children);
        assert ns[j].put == 0 && ns[j].rut == ns[j].ut;
      } else {
        var j :| 0 < j < |ns| && r.labels == Labels(ns, Chain(ns, j));
        assert |Chain(ns, j)| >= 1;
      }
    }
  }

  /** An empty input file yields a bare root, and no rules. */
  lemma NothingMinedFromNothing(minUtility: int)
    ensures Built([], minUtility) == [Root]
    ensures Mined([], minUtility) == []
  {
    LeafEmitsNothing([Root], Some(0), "", minUtility);
  }

  /** The one-sequence input `1[5] 2[3] -1 SUtility:20`. */
  function ScenarioInput(): seq<Sequence> {
    [Sequence([Item(1, 5), Item(2, 3)], 20)]
  }

  /** Its first level: the root gets a new child labelled "1", SID 1, UT 20, PUT 0, RUT 20. */
  lemma ScenarioFirstLevel()
    ensures Descend([Root], 0, ScenarioInput()[0].items, 20, 1)
         == Step([Root.(children := [1]), Node("1", 1, 20, 0, 20, [])], 1)
  {
    var t := ScenarioInput()[0].items;
    assert DecimalString(t[0].id) == "1";
    assert FindLabel([Root], [], "1") == None;
    assert Root.children + [1] == [1];
    var linked := Attach([Root], 0, Node("1", 1, 0, 0, 0, []));
    assert linked == [Root.(children := [1]), Node("1", 1, 0, 0, 0, [])];
    assert Descend([Root], 0, t, 20, 1) == Step(linked[1 := Touch(linked[1], 20)], 1);
  }

  /** Its second level: node 1 gets a new child labelled "2", also with PUT 0. */
  lemma ScenarioSecondLevel()
    ensures var one := [Root.(children := [1]), Node("1", 1, 20, 0, 20, [])];
      Descend(one, 1, ScenarioInput()[0].items[1..], 20, 1)
        == Step([Root.(children := [1]), Node("1", 1, 20, 0, 20, [2]), Node("2", 1, 20, 0, 20, [])], 2)
  {
    var one := [Root.(children := [1]), Node("1", 1, 20, 0, 20, [])];
    var t := ScenarioInput()[0].items[1..];
    assert DecimalString(t[0].id) == "2";
    assert FindLabel(one, [], "2") == None;
    assert one[1].children + [2] == [2];
    var linked := Attach(one, 1, Node("2", 1, 0, 0, 0, []));
    assert linked == [one[0], one[1].(children := [2]), Node("2", 1, 0, 0, 0, [])];
    assert Descend(one, 1, t, 20, 1) == Step(linked[2 := Touch(linked[2], 20)], 2);
  }

  /**
   * With any threshold above 20 the node for item 1 is attached with UT 20
   * although 20 is below the threshold, and nothing is inserted below it.
   */
  lemma PrunedNodeAttached(m: int)
    requires m > 20
    ensures Built(ScenarioInput(), m) == [Root.(children := [1]), Node("1", 1, 20, 0, 20, [])]
  {
    var seqs := ScenarioInput();
    ScenarioFirstLevel();
    assert seqs[..0] == [];
    assert Built(seqs, m) == Insert([Root], 0, seqs[0].items, 20, 1, m);
  }

  /** ... and the root's single child then yields a path rule, with no threshold test. */
  lemma PrunedNodeStillMined(m: int)
    requires m > 20
    ensures Mined(ScenarioInput(), m) == [PathRule("", ["1"], 20)]
  {
    PrunedNodeAttached(m);
    var ns := [Root.(children := [1]), Node("1", 1, 20, 0, 20, [])];
    assert Chain(ns, 1) == [1];
    assert Labels(ns, [1]) == ["1"];
    assert SumUT(ns, [1]) == 20 by {
      assert [1][..0] == [];
    }
    assert Mined(ScenarioInput(), m) == GrowthAt(ns, 0, "", m);
    assert GrowthAt(ns, 0, "", m) == [SinglePath(ns, 1, "")];
  }

  /** With the compiled-in threshold the scenario's output is the single path rule `-> 1 #UTIL: 20`. */
  lemma DefaultThresholdMined()
    ensures Built(ScenarioInput(), DefaultMinUtility) == [Root.(children := [1]), Node("1", 1, 20, 0, 20, [])]
    ensures Mined(ScenarioInput(), DefaultMinUtility) == [PathRule("", ["1"], 20)]
  {
    PrunedNodeAttached(DefaultMinUtility);
    PrunedNodeStillMined(DefaultMinUtility);
  }

  /**
   * With threshold 10 both items are inserted. The node for item 2 gets PUT 0,
   * not 5: addTransaction hands calculateUtilities the remaining suffix, which
   * starts with item 2 itself.
   */
  lemma SuffixLeavesPutZero()
    ensures Built(ScenarioInput(), 10)
         == [Root.(children := [1]), Node("1", 1, 20, 0, 20, [2]), Node("2", 1, 20, 0, 20, [])]
  {
    var seqs := ScenarioInput();
    var t := seqs[0].items;
    var one := [Root.(children := [1]), Node("1", 1, 20, 0, 20, [])];
    var two := [Root.(children := [1]), Node("1", 1, 20, 0, 20, [2]), Node("2", 1, 20, 0, 20, [])];
    ScenarioFirstLevel();
    ScenarioSecondLevel();
    assert t[1..][1..] == [];
    assert Insert(one, 1, t[1..], 20, 1, 10) == two;
    assert seqs[..0] == [];
    assert Built(seqs, 10) == Insert([Root], 0, t, 20, 1, 10);
  }

  /** ... and the root's single child yields one path rule over both labels, with the UT sum 40. */
  lemma SuffixScenarioMined()
    ensures Mined(ScenarioInput(), 10) == [PathRule("", ["1", "2"], 40)]
  {
    SuffixLeavesPutZero();
    var ns := [Root.(children := [1]), Node("1", 1, 20, 0, 20, [2]), Node("2", 1, 20, 0, 20, [])];
    assert Chain(ns, 2) == [2];
    assert Chain(ns, 1) == [1] + [2] == [1, 2];
    assert Labels(ns, [1, 2]) == ["1", "2"];
    assert SumUT(ns, [1]) == 20 by {
      assert [1][..0] == [];
    }
    assert SumUT(ns, [1, 2]) == SumUT(ns, [1]) + ns[2].ut by {
      assert [1, 2][..1] == [1];
    }
    assert Mined(ScenarioInput(), 10) == GrowthAt(ns, 0, "", 10);
    assert GrowthAt(ns, 0, "", 10) == [SinglePath(ns, 1, "")];
    assert SinglePath(ns, 1, "") == PathRule("", ["1", "2"], 40);
  }
}
