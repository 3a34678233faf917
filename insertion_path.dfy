/**
 * What one addTransaction call does to the tree, stated over the nodes it
 * visits: a path that follows the transaction's items from `at` downwards,
 * stopping at the first child whose UT falls below the threshold.
 */
module InsertionPath {
  import opened Decimal
  import opened Transactions
  import opened PrefixTree

  /** The nodes addTransaction visits below `at`, in order (created or reused). */
  function Path(ns: seq<Node>, at: nat, t: seq<Item>, su: int, sid: int, minUtility: int): (p: seq<nat>)
    requires ValidArena(ns) && at < |ns|
    ensures |p| <= |t| && (p == [] <==> t == [])
    ensures t != [] && su < minUtility ==> |p| == 1
    ensures su >= minUtility ==> |p| == |t|
    ensures forall k :: 0 <= k < |p| ==> at < p[k]
    decreases |t|
  {
    if t == [] then []
    else
      var s := Descend(ns, at, t, su, sid);
      if s.nodes[s.child].ut < minUtility then [s.child]
      else [s.child] + Path(s.nodes, s.child, t[1..], su, sid, minUtility)
  }

  /** The first visited node hangs under `at`. */
  lemma PathStartsUnderAt(ns: seq<Node>, at: nat, t: seq<Item>, su: int, sid: int, minUtility: int,
                          r: seq<Node>, p: seq<nat>)
    requires ValidArena(ns) && at < |ns|
    requires r == Insert(ns, at, t, su, sid, minUtility) && p == Path(ns, at, t, su, sid, minUtility)
    ensures p != [] ==> p[0] < |r| && p[0] in r[at].children
  {
    if t != [] {
      var s := Descend(ns, at, t, su, sid);
      if s.nodes[s.child].ut >= minUtility {
        InsertKeepsEarlier(s.nodes, s.child, t[1..], su, sid, minUtility, r);
        assert r[at] == s.nodes[at];
      }
    }
  }

  /** Node k + 1 of the path is a child of node k. */
  lemma {:induction false} PathLinkAt(ns: seq<Node>, at: nat, t: seq<Item>, su: int, sid: int, minUtility: int,
                                      r: seq<Node>, p: seq<nat>, k: nat)
    requires ValidArena(ns) && at < |ns|
    requires r == Insert(ns, at, t, su, sid, minUtility) && p == Path(ns, at, t, su, sid, minUtility)
    requires k + 1 < |p|
    ensures p[k] < |r| && p[k + 1] in r[p[k]].children
    decreases |t|
  {
    var s := Descend(ns, at, t, su, sid);
    var q := Path(s.nodes, s.child, t[1..], su, sid, minUtility);
    assert p == [s.child] + q;
    if k == 0 {
      PathStartsUnderAt(s.nodes, s.child, t[1..], su, sid, minUtility, r, q);
    } else {
      PathLinkAt(s.nodes, s.child, t[1..], su, sid, minUtility, r, q, k - 1);
    }
  }

  /** Node k of the path carries the label of item k (std::to_string of its id). */
  lemma {:induction false} PathLabelAt(ns: seq<Node>, at: nat, t: seq<Item>, su: int, sid: int, minUtility: int,
                                       r: seq<Node>, p: seq<nat>, k: nat)
    requires ValidArena(ns) && at < |ns|
    requires r == Insert(ns, at, t, su, sid, minUtility) && p == Path(ns, at, t, su, sid, minUtility)
    requires k < |p|
    ensures p[k] < |r| && r[p[k]].name == DecimalString(t[k].id)
    decreases |t|
  {
    var s := Descend(ns, at, t, su, sid);
    if s.nodes[s.child].ut >= minUtility {
      var q := Path(s.nodes, s.child, t[1..], su, sid, minUtility);
      assert p == [s.child] + q;
      if k == 0 {
        InsertKeepsEarlier(s.nodes, s.child, t[1..], su, sid, minUtility, r);
      } else {
        PathLabelAt(s.nodes, s.child, t[1..], su, sid, minUtility, r, q, k - 1);
        assert t[k] == t[1..][k - 1];
      }
    }
  }

  /**
   * Node k of the path ends with the statistics calculateUtilities gives it
   * on the suffix: UT = sUtility, PUT = 0, RUT = sUtility.
   */
  lemma {:induction false} PathStatsAt(ns: seq<Node>, at: nat, t: seq<Item>, su: int, sid: int, minUtility: int,
                                       r: seq<Node>, p: seq<nat>, k: nat)
    requires ValidArena(ns) && at < |ns|
    requires r == Insert(ns, at, t, su, sid, minUtility) && p == Path(ns, at, t, su, sid, minUtility)
    requires k < |p|
    ensures p[k] < |r| && r[p[k]].ut == su && r[p[k]].put == 0 && r[p[k]].rut == su
    decreases |t|
  {
    var s := Descend(ns, at, t, su, sid);
    if s.nodes[s.child].ut >= minUtility {
      var q := Path(s.nodes, s.child, t[1..], su, sid, minUtility);
      assert p == [s.child] + q;
      if k == 0 {
        InsertKeepsEarlier(s.nodes, s.child, t[1..], su, sid, minUtility, r);
      } else {
        PathStatsAt(s.nodes, s.child, t[1..], su, sid, minUtility, r, q, k - 1);
      }
    }
  }

  /** The path read as a whole: linked from `at` downwards, labelled with the items, statistics as above. */
  lemma PathFacts(ns: seq<Node>, at: nat, t: seq<Item>, su: int, sid: int, minUtility: int,
                  r: seq<Node>, p: seq<nat>)
    requires ValidArena(ns) && at < |ns|
    requires r == Insert(ns, at, t, su, sid, minUtility) && p == Path(ns, at, t, su, sid, minUtility)
    ensures p != [] ==> p[0] < |r| && p[0] in r[at].children
    ensures forall k :: 0 <= k < |p| - 1 ==> p[k] < |r| && p[k + 1] in r[p[k]].children
    ensures forall k :: 0 <= k < |p| ==> p[k] < |r| && r[p[k]].name == DecimalString(t[k].id)
    ensures forall k :: 0 <= k < |p| ==> p[k] < |r| && r[p[k]].ut == su && r[p[k]].put == 0 && r[p[k]].rut == su
  {
    PathStartsUnderAt(ns, at, t, su, sid, minUtility, r, p);
    forall k | 0 <= k < |p| - 1 ensures p[k] < |r| && p[k + 1] in r[p[k]].children {
      PathLinkAt(ns, at, t, su, sid, minUtility, r, p, k);
    }
    forall k | 0 <= k < |p|
      ensures p[k] < |r| && r[p[k]].name == DecimalString(t[k].id)
      ensures r[p[k]].ut == su && r[p[k]].put == 0 && r[p[k]].rut == su
    {
      PathLabelAt(ns, at, t, su, sid, minUtility, r, p, k);
      PathStatsAt(ns, at, t, su, sid, minUtility, r, p, k);
    }
  }

  /**
   * Node j after an insertion: off the path and other than `at` it is as it
   * was, and if the insertion created it, it lies on the path.
   */
  lemma {:induction false} OffPathAt(ns: seq<Node>, at: nat, t: seq<Item>, su: int, sid: int, minUtility: int,
                                     r: seq<Node>, p: seq<nat>, j: nat)
    requires ValidArena(ns) && at < |ns|
    requires r == Insert(ns, at, t, su, sid, minUtility) && p == Path(ns, at, t, su, sid, minUtility)
    requires j < |r|
    ensures j < |ns| && j != at && j !in p ==> r[j] == ns[j]
    ensures j >= |ns| ==> j in p
    decreases |t|
  {
    if t != [] {
      var s := Descend(ns, at, t, su, sid);
      if s.nodes[s.child].ut >= minUtility {
        var q := Path(s.nodes, s.child, t[1..], su, sid, minUtility);
        assert p == [s.child] + q;
        OffPathAt(s.nodes, s.child, t[1..], su, sid, minUtility, r, q, j);
      }
    }
  }

  /**
   * Nodes off the path are left alone, `at` keeps its record and may only
   * gain children on its nodeLink, every node the insertion creates lies on
   * the path, and an empty transaction changes nothing.
   */
  lemma OffPathUnchanged(ns: seq<Node>, at: nat, t: seq<Item>, su: int, sid: int, minUtility: int,
                         r: seq<Node>, p: seq<nat>)
    requires ValidArena(ns) && at < |ns|
    requires r == Insert(ns, at, t, su, sid, minUtility) && p == Path(ns, at, t, su, sid, minUtility)
    ensures t == [] ==> r == ns
    ensures forall j :: 0 <= j < |ns| && j != at && j !in p ==> r[j] == ns[j]
    ensures forall j :: |ns| <= j < |r| ==> j in p
    ensures SameRecord(ns[at], r[at]) && ns[at].children <= r[at].children
  {
    InsertKeepsEarlier(ns, at, t, su, sid, minUtility, r);
    InsertExtends(ns, at, t, su, sid, minUtility, r);
    forall j | 0 <= j < |r|
      ensures j < |ns| && j != at && j !in p ==> r[j] == ns[j]
      ensures j >= |ns| ==> j in p
    {
      OffPathAt(ns, at, t, su, sid, minUtility, r, p, j);
    }
  }

  /** A transaction whose sUtility is below the threshold touches exactly one child of `at` and nothing deeper. */
  lemma PrunedTouchesOneChild(ns: seq<Node>, at: nat, t: seq<Item>, su: int, sid: int, minUtility: int)
    requires ValidArena(ns) && at < |ns| && t != [] && su < minUtility
    ensures var r := Insert(ns, at, t, su, sid, minUtility);
      exists c :: c in r[at].children && r[c].name == DecimalString(t[0].id) && r[c].ut == su &&
        |r| <= |ns| + 1 &&
        forall j :: 0 <= j < |r| && j != at && j != c ==> j < |ns| && r[j] == ns[j]
    ensures var r := Insert(ns, at, t, su, sid, minUtility);
      SameRecord(ns[at], r[at]) && ns[at].children <= r[at].children
  {
    var r := Insert(ns, at, t, su, sid, minUtility);
    var p := Path(ns, at, t, su, sid, minUtility);
    PathFacts(ns, at, t, su, sid, minUtility, r, p);
    OffPathUnchanged(ns, at, t, su, sid, minUtility, r, p);
    assert p == [p[0]];
    var c := p[0];
    assert forall j :: 0 <= j < |r| && j != at && j != c ==> j < |ns| && r[j] == ns[j];
  }

  /**
   * A transaction with sUtility at or above the threshold leaves a chain of
   * |t| nodes below `at` labelled with its item ids, in order.
   */
  lemma FullPathLabelled(ns: seq<Node>, at: nat, t: seq<Item>, su: int, sid: int, minUtility: int)
    requires ValidArena(ns) && at < |ns| && su >= minUtility
    ensures var r := Insert(ns, at, t, su, sid, minUtility);
      exists p: seq<nat> :: |p| == |t| &&
        (forall k :: 0 <= k < |p| ==> p[k] < |r| && r[p[k]].name == DecimalString(t[k].id) && r[p[k]].ut == su) &&
        (p != [] ==> p[0] in r[at].children) &&
        (forall k :: 0 <= k < |p| - 1 ==> p[k + 1] in r[p[k]].children)
  {
    var r := Insert(ns, at, t, su, sid, minUtility);
    var p := Path(ns, at, t, su, sid, minUtility);
    PathFacts(ns, at, t, su, sid, minUtility, r, p);
  }

  /** Insertion keeps PUT == 0 and RUT == UT on every node: the nodes it writes all get PUT 0. */
  lemma InsertKeepsZeroPut(ns: seq<Node>, at: nat, t: seq<Item>, su: int, sid: int, minUtility: int)
    requires ValidArena(ns) && at < |ns| && ZeroPut(ns)
    ensures ZeroPut(Insert(ns, at, t, su, sid, minUtility))
  {
    var r := Insert(ns, at, t, su, sid, minUtility);
    var p := Path(ns, at, t, su, sid, minUtility);
    PathFacts(ns, at, t, su, sid, minUtility, r, p);
    OffPathUnchanged(ns, at, t, su, sid, minUtility, r, p);
    InsertKeepsEarlier(ns, at, t, su, sid, minUtility, r);
    forall j | 0 <= j < |r| ensures r[j].put == 0 && r[j].rut == r[j].ut {
      if j in p {
        var k :| 0 <= k < |p| && p[k] == j;
      } else if j == at {
        assert r[at].put == ns[at].put && r[at].rut == ns[at].rut && r[at].ut == ns[at].ut;
      }
    }
  }

  /** Every node of the tree main builds has PUT == 0 and RUT == UT. */
  lemma {:induction false} BuiltZeroPut(seqs: seq<Sequence>, minUtility: int)
    ensures ZeroPut(Built(seqs, minUtility))
    decreases |seqs|
  {
    if seqs != [] {
      var last := seqs[|seqs| - 1];
      BuiltZeroPut(seqs[..|seqs| - 1], minUtility);
      InsertKeepsZeroPut(Built(seqs[..|seqs| - 1], minUtility), 0, last.items, last.sUtility, |seqs|, minUtility);
    }
  }
}
