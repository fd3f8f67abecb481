/** The skip list engine of `skiplist.h`: a sentinel header spanning
    `maxLevel + 1` levels, the current top level `level`
    (`m_skipListLevel`), the element count `count` (`m_elementCount`), and
    search, insert and delete descending the levels from the top.

    The nodes are kept in an arena (module Arena); the ghost fields of the
    class give, per level, the chain of node indices reachable from the
    header, and the map from keys to values that the list stands for. */
module SkipLists {
  import opened Order
  import opened Arena

  function Min(a: int, b: int): int {
    if a < b then a else b
  }

  function Max(a: int, b: int): int {
    if a < b then b else a
  }

  /** The number of leading `true`s: how far `while (rand() % 2) k++;`
      counts when `coins` are the successive outcomes of `rand() % 2`. */
  function LeadingTrues(coins: seq<bool>): (n: nat)
    ensures n <= |coins|
    ensures forall i :: 0 <= i < n ==> coins[i]
    ensures n < |coins| ==> !coins[n]
  {
    if coins == [] || !coins[0] then 0 else 1 + LeadingTrues(coins[1..])
  }

  /** The whole state of a list, as values. */
  datatype ListState<K, V> = ListState(
    nodes: seq<Node<K, V>>,
    chains: seq<seq<nat>>,
    level: nat,
    maxLevel: nat,
    count: nat,
    contents: map<K, V>)

  /** Every node has one forward slot per level up to its own, and no node
      is higher than the header, which spans every level. */
  ghost predicate NodesOk<K, V>(nodes: seq<Node<K, V>>, maxLevel: nat) {
    && |nodes| >= 1 && nodes[0].nodeLevel == maxLevel
    && forall x :: 0 <= x < |nodes| ==>
         nodes[x].nodeLevel <= maxLevel && |nodes[x].forward| == nodes[x].nodeLevel + 1
  }

  /** Tower property: every chain is part of the level-0 chain, and a node
      of the level-0 chain is on level j exactly when its level is j or more. */
  ghost predicate Tower<K, V>(nodes: seq<Node<K, V>>, chains: seq<seq<nat>>) {
    && |chains| >= 1
    && (forall j, x {:trigger x in chains[j]} :: 0 <= j < |chains| && x in chains[j] ==> x in chains[0])
    && (forall j, x {:trigger x in chains[j]} :: 0 <= j < |chains| && x in chains[0] && x < |nodes| ==>
          (x in chains[j] <==> j <= nodes[x].nodeLevel))
  }

  /** The value of the node at position p of chain c. */
  ghost function ValueAt<K, V>(nodes: seq<Node<K, V>>, c: seq<nat>, p: nat): V
    requires p < |c| && c[p] < |nodes|
  {
    nodes[c[p]].value
  }

  /** The level-0 chain holds exactly the entries of `contents`. */
  ghost predicate Abstracts<K, V>(nodes: seq<Node<K, V>>, c0: seq<nat>, contents: map<K, V>) {
    && (forall p {:trigger ValueAt(nodes, c0, p)} :: 1 <= p < |c0| && c0[p] < |nodes| ==>
          nodes[c0[p]].key in contents && contents[nodes[c0[p]].key] == ValueAt(nodes, c0, p))
    && (forall k :: k in contents ==>
          exists p :: 1 <= p < |c0| && c0[p] < |nodes| && nodes[c0[p]].key == k)
  }

  /** The facts about a state that need no quantifier. */
  ghost predicate Shape<K, V>(s: ListState<K, V>) {
    && |s.nodes| >= 1 && |s.nodes[0].forward| == s.maxLevel + 1
    && |s.chains| == s.maxLevel + 1
    && s.level <= s.maxLevel
    && s.count == |s.contents|
  }

  /** Level by level, `after` holds the nodes of `before` and, on levels
      0..r, node n as well: what an insertion does to the chains. */
  ghost predicate Added(before: seq<seq<nat>>, after: seq<seq<nat>>, n: nat, r: nat) {
    && |after| == |before|
    && forall j, y :: 0 <= j < |before| ==> (y in after[j] <==> y in before[j] || (y == n && j <= r))
  }

  /** Level by level, `after` holds the nodes of `before` other than those
      carrying key k, and the header always: what a deletion does. */
  ghost predicate Removed<K, V>(before: seq<seq<nat>>, after: seq<seq<nat>>, nodes: seq<Node<K, V>>, k: K) {
    && |after| == |before|
    && forall j, y :: 0 <= j < |before| ==>
         (y in after[j] <==> y in before[j] && (y == 0 || (y < |nodes| && nodes[y].key != k)))
  }

  /** The invariant the operations of `SkipList` keep. */
  ghost predicate Inv<K(!new), V>(s: ListState<K, V>, less: (K, K) -> bool) {
    && Shape(s)
    && StrictTotalOrder(less)
    && NodesOk(s.nodes, s.maxLevel)
    && (forall j :: 0 <= j <= s.maxLevel ==> LevelChain(s.nodes, s.chains[j], j, less))
    && Tower(s.nodes, s.chains)
    && (forall j :: s.level < j <= s.maxLevel ==> s.chains[j] == [0])
    && (s.level == 0 || |s.chains[s.level]| > 1)
    && s.count == |s.chains[0]| - 1
    && Abstracts(s.nodes, s.chains[0], s.contents)
  }

  /** Inv behind a guard: Shape is in view, the rest is opened by Unseal.
      The methods carry this form, so that each of their proof steps sees
      only the facts the lemmas it calls hand back. */
  ghost predicate Sealed<K(!new), V>(s: ListState<K, V>, less: (K, K) -> bool) {
    && Shape(s)
    && forall n: nat {:trigger Unfold(n)} :: Unfold(n) ==> Inv(s, less)
  }

  lemma Unseal<K(!new), V>(s: ListState<K, V>, less: (K, K) -> bool)
    requires Sealed(s, less)
    ensures Inv(s, less)
  {
    assert Unfold(0);
  }

  lemma Seal<K(!new), V>(s: ListState<K, V>, less: (K, K) -> bool)
    requires Inv(s, less)
    ensures Sealed(s, less)
  {
  }

  /** The entries of the level-0 chain, in chain order. */
  ghost function EntriesOf<K, V>(nodes: seq<Node<K, V>>, c0: seq<nat>): seq<(K, V)>
    requires forall q :: 0 <= q < |c0| ==> c0[q] < |nodes|
  {
    if |c0| <= 1 then []
    else seq(|c0| - 1, i requires 0 <= i < |c0| - 1 => (nodes[c0[i + 1]].key, nodes[c0[i + 1]].value))
  }

  /** The entries of a valid state, in level-0 order: their keys strictly
      ascend, and they are exactly the entries of the map. */
  lemma EntriesAbstract<K(!new), V>(s: ListState<K, V>, less: (K, K) -> bool)
    requires Sealed(s, less)
    ensures LevelChain(s.nodes, s.chains[0], 0, less)
    ensures var es := EntriesOf(s.nodes, s.chains[0]);
      && |es| == |s.contents|
      && (forall i, j :: 0 <= i < j < |es| ==> less(es[i].0, es[j].0))
      && (forall i :: 0 <= i < |es| ==> es[i].0 in s.contents && s.contents[es[i].0] == es[i].1)
      && (forall k :: k in s.contents ==> exists i :: 0 <= i < |es| && es[i].0 == k)
  {
    Unseal(s, less);
    var c := s.chains[0];
    assert LevelChain(s.nodes, c, 0, less);
    var es := EntriesOf(s.nodes, c);
    forall i, j | 0 <= i < j < |es|
      ensures less(es[i].0, es[j].0)
    {
      AscendingAt(s.nodes, c, less, i + 1, j + 1);
    }
    forall i | 0 <= i < |es|
      ensures es[i].0 in s.contents && s.contents[es[i].0] == es[i].1
    {
      assert ValueAt(s.nodes, c, i + 1) == s.nodes[c[i + 1]].value;
    }
    forall k | k in s.contents
      ensures exists i :: 0 <= i < |es| && es[i].0 == k
    {
      var p :| 1 <= p < |c| && c[p] < |s.nodes| && s.nodes[c[p]].key == k;
      assert es[p - 1].0 == k;
    }
  }

  /** Level i is a well-formed chain, the single header above the top level. */
  lemma LevelFacts<K(!new), V>(s: ListState<K, V>, less: (K, K) -> bool, i: nat)
    requires Sealed(s, less) && i <= s.maxLevel
    ensures LevelChain(s.nodes, s.chains[i], i, less)
    ensures s.level < i ==> s.chains[i] == [0]
  {
    Unseal(s, less);
  }

  /** Every level is linked through its own forward slots. */
  lemma StateLinkage<K(!new), V>(s: ListState<K, V>, less: (K, K) -> bool)
    requires Sealed(s, less)
    ensures Linkage(s.nodes, s.chains)
  {
    Unseal(s, less);
    forall j | 0 <= j < |s.chains| ensures Linked(s.nodes, s.chains[j], j) {
      assert LevelChain(s.nodes, s.chains[j], j, less);
    }
    assert AllLinked(s.nodes, s.chains);
  }

  /** The chains only hold nodes of the arena. */
  lemma InArena<K(!new), V>(s: ListState<K, V>, less: (K, K) -> bool, j: nat)
    requires Sealed(s, less) && j <= s.maxLevel
    ensures forall y :: y in s.chains[j] ==> y < |s.nodes|
  {
    LevelFacts(s, less, j);
  }

  /** Above the top level only the header is left. */
  lemma AboveLevel<K(!new), V>(s: ListState<K, V>, less: (K, K) -> bool)
    requires Sealed(s, less)
    ensures forall j :: s.level < j <= s.maxLevel ==> s.chains[j] == [0]
  {
    Unseal(s, less);
  }

  /** After the descent on level 0, the key is present exactly when the next
      node on level 0 carries it: the test of all three operations. */
  lemma Locate<K(!new), V>(s: ListState<K, V>, less: (K, K) -> bool, p: nat, k: K)
    requires Sealed(s, less)
    requires IsPred(s.nodes, s.chains[0], p, k, less)
    ensures k in s.contents <==> (p + 1 < |s.chains[0]| && s.nodes[s.chains[0][p + 1]].key == k)
  {
    Unseal(s, less);
    var c := s.chains[0];
    assert LevelChain(s.nodes, c, 0, less);
    if k in s.contents {
      var q :| 1 <= q < |c| && c[q] < |s.nodes| && s.nodes[c[q]].key == k;
      PredPosition(s.nodes, c, 0, less, p, q, k);
    }
    if p + 1 < |c| {
      assert ValueAt(s.nodes, c, p + 1) == s.nodes[c[p + 1]].value;
    }
  }

  /** A node on level i > 0 is also on level i - 1; returns its position there. */
  lemma TowerDown<K(!new), V>(s: ListState<K, V>, less: (K, K) -> bool, i: nat, p: nat) returns (q: nat)
    requires Sealed(s, less) && 1 <= i <= s.maxLevel && p < |s.chains[i]|
    ensures q < |s.chains[i - 1]| && s.chains[i - 1][q] == s.chains[i][p]
  {
    Unseal(s, less);
    var x := s.chains[i][p];
    assert x in s.chains[i];
    assert LevelChain(s.nodes, s.chains[i], i, less);
    assert x in s.chains[0];
    assert x in s.chains[i - 1];
    q :| 0 <= q < |s.chains[i - 1]| && s.chains[i - 1][q] == x;
  }

  /** Distinct positions of a level chain hold distinct nodes. */
  lemma LevelDistinct<K(!new), V>(s: ListState<K, V>, less: (K, K) -> bool, j: nat)
    requires Sealed(s, less) && j <= s.maxLevel
    ensures forall q, r :: 0 <= q < r < |s.chains[j]| ==> s.chains[j][q] != s.chains[j][r]
  {
    Unseal(s, less);
    forall q, r | 0 <= q < r < |s.chains[j]| ensures s.chains[j][q] != s.chains[j][r] {
      ChainDistinct(s.nodes, s.chains[j], j, less, q, r);
    }
  }

  /** The keys on a chain are keys of the list. */
  lemma ChainKeysPresent<K(!new), V>(s: ListState<K, V>, less: (K, K) -> bool, j: nat, q: nat)
    requires Sealed(s, less) && j <= s.maxLevel && 1 <= q < |s.chains[j]|
    ensures s.chains[j][q] < |s.nodes| && s.nodes[s.chains[j][q]].key in s.contents
  {
    Unseal(s, less);
    var x := s.chains[j][q];
    assert x in s.chains[j];
    assert LevelChain(s.nodes, s.chains[j], j, less);
    assert x in s.chains[0];
    var q0 :| 0 <= q0 < |s.chains[0]| && s.chains[0][q0] == x;
    assert 1 <= q0 && ValueAt(s.nodes, s.chains[0], q0) == s.nodes[x].value;
  }

  lemma SameShapeAppend<K, V>(a: seq<Node<K, V>>, n: Node<K, V>, b: seq<Node<K, V>>)
    requires SameShape(a + [n], b)
    ensures SameShape(a, b)
    ensures b[|a|].key == n.key && b[|a|].value == n.value && b[|a|].nodeLevel == n.nodeLevel
    ensures |b[|a|].forward| == |n.forward|
  {
    assert forall y :: 0 <= y < |a| ==> (a + [n])[y] == a[y];
    assert (a + [n])[|a|] == n;
  }

  /** A level the new node joins: spliced in after the recorded
      predecessor, the chain stays ordered. */
  lemma InsertLevel<K(!new), V>(s: ListState<K, V>, less: (K, K) -> bool, k: K, j: nat, p: nat,
                                nodes': seq<Node<K, V>>, c': seq<nat>)
    requires Sealed(s, less) && k !in s.contents && j <= s.maxLevel
    requires IsPred(s.nodes, s.chains[j], p, k, less)
    requires |nodes'| == |s.nodes| + 1 && SameShape(s.nodes, nodes') && nodes'[|s.nodes|].key == k
    requires c' == Splice(s.chains[j], p, |s.nodes|) && Linked(nodes', c', j)
    ensures LevelChain(nodes', c', j, less)
    ensures forall y :: y in c' <==> y in s.chains[j] || y == |s.nodes|
  {
    Unseal(s, less);
    var c := s.chains[j];
    var n := |s.nodes|;
    assert LevelChain(s.nodes, c, j, less);
    AscendingSameShape(s.nodes, nodes', c, less);
    forall q | 1 <= q < |c| ensures s.nodes[c[q]].key != k {
      ChainKeysPresent(s, less, j, q);
    }
    PredSplits(s.nodes, c, j, less, p, k);
    SpliceAscending(nodes', c, p, n, less);
    SpliceMembers(c, p, n);
  }

  /** A level the new node does not join is unchanged and still ordered. */
  lemma KeepLevel<K(!new), V>(s: ListState<K, V>, less: (K, K) -> bool, j: nat, nodes': seq<Node<K, V>>)
    requires Sealed(s, less) && j <= s.maxLevel
    requires SameShape(s.nodes, nodes') && Linked(nodes', s.chains[j], j)
    ensures LevelChain(nodes', s.chains[j], j, less)
    ensures forall y :: y in s.chains[j] ==> y < |s.nodes|
  {
    Unseal(s, less);
    assert LevelChain(s.nodes, s.chains[j], j, less);
    AscendingSameShape(s.nodes, nodes', s.chains[j], less);
  }

  /** The parts of Inv an operation carries over unchanged. */
  lemma StateBasics<K(!new), V>(s: ListState<K, V>, less: (K, K) -> bool)
    requires Sealed(s, less)
    ensures StrictTotalOrder(less) && NodesOk(s.nodes, s.maxLevel)
    ensures s.count == |s.chains[0]| - 1
    ensures s.level == 0 || |s.chains[s.level]| > 1
  {
    Unseal(s, less);
  }

  /** Every level after the splice loop: ordered, and holding what it held
      plus the new node on levels 0..r. */
  lemma InsertLevels<K(!new), V>(s: ListState<K, V>, less: (K, K) -> bool, k: K, r: nat,
                                 ups: seq<nat>, nodes': seq<Node<K, V>>, chains': seq<seq<nat>>)
    requires Sealed(s, less) && k !in s.contents && r <= s.maxLevel
    requires |ups| == s.maxLevel + 1 && |chains'| == s.maxLevel + 1
    requires forall j :: 0 <= j <= r ==>
               IsPred(s.nodes, s.chains[j], ups[j], k, less) && chains'[j] == Splice(s.chains[j], ups[j], |s.nodes|)
    requires forall j :: r < j <= s.maxLevel ==> chains'[j] == s.chains[j]
    requires |nodes'| == |s.nodes| + 1 && SameShape(s.nodes, nodes') && nodes'[|s.nodes|].key == k
    requires Linkage(nodes', chains')
    ensures forall j :: 0 <= j <= s.maxLevel ==> LevelChain(nodes', chains'[j], j, less)
    ensures forall j, y :: 0 <= j <= s.maxLevel ==>
              (y in chains'[j] <==> y in s.chains[j] || (y == |s.nodes| && j <= r))
  {
    OpenLinkage(nodes', chains');
    forall j | 0 <= j <= s.maxLevel
      ensures LevelChain(nodes', chains'[j], j, less)
      ensures forall y :: y in chains'[j] <==> y in s.chains[j] || (y == |s.nodes| && j <= r)
    {
      if j <= r {
        InsertLevel(s, less, k, j, ups[j], nodes', chains'[j]);
      } else {
        KeepLevel(s, less, j, nodes');
      }
    }
  }

  /** The level-0 chain after the splice stands for the map with k added. */
  lemma InsertContents<K(!new), V>(s: ListState<K, V>, less: (K, K) -> bool, k: K, v: V, p: nat,
                                   nodes': seq<Node<K, V>>)
    requires Sealed(s, less) && k !in s.contents && p < |s.chains[0]|
    requires |nodes'| == |s.nodes| + 1 && SameShape(s.nodes, nodes')
    requires nodes'[|s.nodes|].key == k && nodes'[|s.nodes|].value == v
    ensures Abstracts(nodes', Splice(s.chains[0], p, |s.nodes|), s.contents[k := v])
  {
    LevelFacts(s, less, 0);
    Unseal(s, less);
    InsertAbstracts(s.nodes, s.chains[0], s.contents, k, v, p, nodes');
  }

  /** What the splice loop of `insert_element` leaves behind keeps the
      invariant: the new node n (key k, value v, level r) sits on levels
      0..r right after the nodes the descent recorded. */
  lemma InsertInv<K(!new), V>(s: ListState<K, V>, less: (K, K) -> bool, k: K, v: V, r: nat,
                              ups: seq<nat>, nodes': seq<Node<K, V>>, chains': seq<seq<nat>>)
    requires Sealed(s, less) && k !in s.contents && r <= s.maxLevel
    requires |ups| == s.maxLevel + 1 && |chains'| == s.maxLevel + 1
    requires forall j :: 0 <= j <= r ==>
               IsPred(s.nodes, s.chains[j], ups[j], k, less) && chains'[j] == Splice(s.chains[j], ups[j], |s.nodes|)
    requires forall j :: r < j <= s.maxLevel ==> chains'[j] == s.chains[j]
    requires |nodes'| == |s.nodes| + 1 && SameShape(s.nodes + [NewNode(k, v, r)], nodes')
    requires Linkage(nodes', chains')
    ensures Sealed(ListState(nodes', chains', Max(s.level, r), s.maxLevel, s.count + 1, s.contents[k := v]), less)
    ensures Added(s.chains, chains', |s.nodes|, r)
  {
    var n := |s.nodes|;
    SameShapeAppend(s.nodes, NewNode(k, v, r), nodes');
    InsertLevels(s, less, k, r, ups, nodes', chains');
    var s' := ListState(nodes', chains', Max(s.level, r), s.maxLevel, s.count + 1, s.contents[k := v]);
    InsertTower(s, s', less, r);
    InsertContents(s, less, k, v, ups[0], nodes');
    StateBasics(s, less);
    AboveLevel(s, less);
    assert Inv(s', less);
    Seal(s', less);
  }

  lemma InsertTower<K(!new), V>(s: ListState<K, V>, s': ListState<K, V>, less: (K, K) -> bool, r: nat)
    requires Sealed(s, less) && r <= s.maxLevel
    requires |s'.nodes| == |s.nodes| + 1 && SameShape(s.nodes, s'.nodes) && s'.nodes[|s.nodes|].nodeLevel == r
    requires |s'.chains| == |s.chains|
    requires forall j, y :: 0 <= j <= s.maxLevel ==>
               (y in s'.chains[j] <==> y in s.chains[j] || (y == |s.nodes| && j <= r))
    ensures Tower(s'.nodes, s'.chains)
  {
    Unseal(s, less);
    var n := |s.nodes|;
    assert n in s'.chains[0];
    forall j, x | 0 <= j < |s'.chains| && x in s'.chains[0] && x < |s'.nodes|
      ensures x in s'.chains[j] <==> j <= s'.nodes[x].nodeLevel
    {
      if x != n {
        assert x in s.chains[0];
        assert LevelChain(s.nodes, s.chains[0], 0, less);
        assert x < |s.nodes|;
      }
    }
  }

  /** Splicing a node with a new key into the level-0 chain adds that
      entry to the map the chain stands for. */
  lemma InsertAbstracts<K, V>(nodes: seq<Node<K, V>>, c: seq<nat>, contents: map<K, V>, k: K, v: V, p: nat,
                              nodes': seq<Node<K, V>>)
    requires forall q :: 0 <= q < |c| ==> c[q] < |nodes|
    requires Abstracts(nodes, c, contents) && k !in contents && p < |c|
    requires |nodes'| == |nodes| + 1 && SameShape(nodes, nodes')
    requires nodes'[|nodes|].key == k && nodes'[|nodes|].value == v
    ensures Abstracts(nodes', Splice(c, p, |nodes|), contents[k := v])
  {
    var n := |nodes|;
    var c0' := Splice(c, p, n);
    forall q | 1 <= q < |c0'| && c0'[q] < |nodes'|
      ensures nodes'[c0'[q]].key in contents[k := v]
      ensures contents[k := v][nodes'[c0'[q]].key] == ValueAt(nodes', c0', q)
    {
      if q <= p {
        assert c0'[q] == c[q];
        assert ValueAt(nodes, c, q) == nodes[c[q]].value;
      } else if q > p + 1 {
        assert c0'[q] == c[q - 1];
        assert ValueAt(nodes, c, q - 1) == nodes[c[q - 1]].value;
      }
    }
    forall key | key in contents || key == k
      ensures exists q :: 1 <= q < |c0'| && c0'[q] < |nodes'| && nodes'[c0'[q]].key == key
    {
      if key == k {
        assert c0'[p + 1] == n;
      } else {
        var q0 :| 1 <= q0 < |c| && c[q0] < |nodes| && nodes[c[q0]].key == key;
        if q0 <= p {
          assert c0'[q0] == c[q0];
        } else {
          assert c0'[q0 + 1] == c[q0];
        }
      }
    }
  }

  /** The node the descent finds for a present key sits right after the
      recorded predecessor on each of its levels, which are at most the
      current top level. */
  lemma DeleteTarget<K(!new), V>(s: ListState<K, V>, less: (K, K) -> bool, k: K, ups: seq<nat>)
    requires Sealed(s, less) && |ups| == s.maxLevel + 1
    requires forall j :: 0 <= j <= s.level ==> IsPred(s.nodes, s.chains[j], ups[j], k, less)
    requires ups[0] + 1 < |s.chains[0]| && s.chains[0][ups[0] + 1] < |s.nodes|
    requires s.nodes[s.chains[0][ups[0] + 1]].key == k
    ensures var x := s.chains[0][ups[0] + 1];
      && x != 0 && x < |s.nodes| && s.nodes[x].nodeLevel <= s.level
      && forall j :: 0 <= j <= s.nodes[x].nodeLevel ==>
           ups[j] + 1 < |s.chains[j]| && s.chains[j][ups[j] + 1] == x
  {
    Unseal(s, less);
    var x := s.chains[0][ups[0] + 1];
    assert LevelChain(s.nodes, s.chains[0], 0, less);
    assert x in s.chains[0];
    var L := s.nodes[x].nodeLevel;
    assert x in s.chains[L];
    if L > s.level {
      assert false;
    }
    forall j | 0 <= j <= L
      ensures ups[j] + 1 < |s.chains[j]| && s.chains[j][ups[j] + 1] == x
    {
      assert x in s.chains[j];
      var q :| 0 <= q < |s.chains[j]| && s.chains[j][q] == x;
      assert LevelChain(s.nodes, s.chains[j], j, less);
      PredPosition(s.nodes, s.chains[j], j, less, ups[j], q, k);
    }
  }

  /** On level 0, the node after position p is the only one with its key. */
  lemma TargetUnique<K(!new), V>(s: ListState<K, V>, less: (K, K) -> bool, p: nat)
    requires Sealed(s, less) && p + 1 < |s.chains[0]|
    ensures s.chains[0][p + 1] < |s.nodes|
    ensures forall j, y :: 0 <= j <= s.maxLevel && y in s.chains[j] ==>
              y < |s.nodes| &&
              (y == s.chains[0][p + 1] <==> y != 0 && s.nodes[y].key == s.nodes[s.chains[0][p + 1]].key)
  {
    Unseal(s, less);
    var c := s.chains[0];
    assert LevelChain(s.nodes, c, 0, less);
    forall j, y | 0 <= j <= s.maxLevel && y in s.chains[j]
      ensures y < |s.nodes| && (y == c[p + 1] <==> y != 0 && s.nodes[y].key == s.nodes[c[p + 1]].key)
    {
      assert y in c;
      var q :| 0 <= q < |c| && c[q] == y;
      if q != 0 && q != p + 1 {
        KeysDistinct(s.nodes, c, 0, less, q, p + 1);
      }
    }
  }

  /** A level the deleted node x leaves: unlinked after the recorded
      predecessor, the chain stays ordered. */
  lemma DeleteLevel<K(!new), V>(s: ListState<K, V>, less: (K, K) -> bool, j: nat, p: nat,
                                nodes': seq<Node<K, V>>, c': seq<nat>)
    requires Sealed(s, less) && j <= s.maxLevel && p + 1 < |s.chains[j]|
    requires SameShape(s.nodes, nodes')
    requires c' == Unlink(s.chains[j], p) && Linked(nodes', c', j)
    ensures LevelChain(nodes', c', j, less)
    ensures forall y :: y in c' <==> y in s.chains[j] && y != s.chains[j][p + 1]
  {
    LevelFacts(s, less, j);
    var c := s.chains[j];
    AscendingSameShape(s.nodes, nodes', c, less);
    LevelDistinct(s, less, j);
    UnlinkMembers(c, p);
    UnlinkAscending(nodes', c, p, less);
  }

  /** A level above the deleted node's own does not hold it. */
  lemma DeleteKeep<K(!new), V>(s: ListState<K, V>, less: (K, K) -> bool, j: nat, x: nat,
                               nodes': seq<Node<K, V>>)
    requires Sealed(s, less) && j <= s.maxLevel
    requires x in s.chains[0] && x < |s.nodes| && s.nodes[x].nodeLevel < j
    requires SameShape(s.nodes, nodes') && Linked(nodes', s.chains[j], j)
    ensures LevelChain(nodes', s.chains[j], j, less)
    ensures x !in s.chains[j]
  {
    Unseal(s, less);
    assert LevelChain(s.nodes, s.chains[j], j, less);
    AscendingSameShape(s.nodes, nodes', s.chains[j], less);
  }

  /** Every level after the unlink loop: ordered, and holding what it held
      but x. */
  lemma DeleteLevels<K(!new), V>(s: ListState<K, V>, less: (K, K) -> bool, ups: seq<nat>, x: nat,
                                 nodes': seq<Node<K, V>>, chains': seq<seq<nat>>)
    requires Sealed(s, less) && |ups| == s.maxLevel + 1 && |chains'| == s.maxLevel + 1
    requires x in s.chains[0] && x < |s.nodes| && s.nodes[x].nodeLevel <= s.level
    requires forall j :: 0 <= j <= s.nodes[x].nodeLevel ==>
               ups[j] + 1 < |s.chains[j]| && s.chains[j][ups[j] + 1] == x &&
               chains'[j] == Unlink(s.chains[j], ups[j])
    requires forall j :: s.nodes[x].nodeLevel < j <= s.maxLevel ==> chains'[j] == s.chains[j]
    requires SameShape(s.nodes, nodes') && Linkage(nodes', chains')
    ensures forall j :: 0 <= j <= s.maxLevel ==> LevelChain(nodes', chains'[j], j, less)
    ensures forall j, y :: 0 <= j <= s.maxLevel ==> (y in chains'[j] <==> y in s.chains[j] && y != x)
  {
    OpenLinkage(nodes', chains');
    forall j | 0 <= j <= s.maxLevel
      ensures LevelChain(nodes', chains'[j], j, less)
      ensures forall y :: y in chains'[j] <==> y in s.chains[j] && y != x
    {
      if j <= s.nodes[x].nodeLevel {
        DeleteLevel(s, less, j, ups[j], nodes', chains'[j]);
      } else {
        DeleteKeep(s, less, j, x, nodes');
      }
    }
  }

  lemma DeleteTower<K(!new), V>(s: ListState<K, V>, less: (K, K) -> bool, x: nat,
                                nodes': seq<Node<K, V>>, chains': seq<seq<nat>>)
    requires Sealed(s, less) && |chains'| == s.maxLevel + 1
    requires |nodes'| == |s.nodes| && SameShape(s.nodes, nodes')
    requires forall j, y :: 0 <= j <= s.maxLevel ==> (y in chains'[j] <==> y in s.chains[j] && y != x)
    ensures Tower(nodes', chains')
  {
    Unseal(s, less);
    forall j, y | 0 <= j < |chains'| && y in chains'[0] && y < |nodes'|
      ensures y in chains'[j] <==> j <= nodes'[y].nodeLevel
    {
      assert y in s.chains[0];
    }
  }

  /** The level-0 chain after the unlink stands for the map without k. */
  lemma DeleteContents<K(!new), V>(s: ListState<K, V>, less: (K, K) -> bool, k: K, p: nat,
                                   nodes': seq<Node<K, V>>)
    requires Sealed(s, less) && p + 1 < |s.chains[0]| && s.chains[0][p + 1] < |s.nodes|
    requires s.nodes[s.chains[0][p + 1]].key == k
    requires |nodes'| == |s.nodes| && SameShape(s.nodes, nodes')
    ensures k in s.contents && |s.contents - {k}| == |s.contents| - 1
    ensures Abstracts(nodes', Unlink(s.chains[0], p), s.contents - {k})
  {
    Unseal(s, less);
    var c := s.chains[0];
    assert LevelChain(s.nodes, c, 0, less);
    forall q | 1 <= q < |c| && q != p + 1 ensures s.nodes[c[q]].key != k {
      KeysDistinct(s.nodes, c, 0, less, q, p + 1);
    }
    DeleteAbstracts(s.nodes, c, s.contents, k, p, nodes');
    assert (s.contents - {k}).Keys == s.contents.Keys - {k};
  }

  /** A level that lost exactly node x, the successor of the stopping node
      on level 0, lost exactly the nodes carrying x's key. */
  lemma DeleteRemoved<K(!new), V>(s: ListState<K, V>, less: (K, K) -> bool, p: nat, x: nat,
                                  nodes': seq<Node<K, V>>, chains': seq<seq<nat>>)
    requires Sealed(s, less) && p + 1 < |s.chains[0]| && x == s.chains[0][p + 1]
    requires x < |s.nodes| && |nodes'| == |s.nodes| && SameShape(s.nodes, nodes')
    requires |chains'| == s.maxLevel + 1
    requires forall j, y :: 0 <= j <= s.maxLevel ==> (y in chains'[j] <==> y in s.chains[j] && y != x)
    ensures Removed(s.chains, chains', nodes', s.nodes[x].key)
  {
    TargetUnique(s, less, p);
  }

  /** What the unlink loop and the level shrink of `delete_element` leave
      behind keeps the invariant: node x is off every level. */
  lemma DeleteInv<K(!new), V>(s: ListState<K, V>, less: (K, K) -> bool, k: K, ups: seq<nat>, x: nat,
                              nodes': seq<Node<K, V>>, chains': seq<seq<nat>>, level': nat)
    requires Sealed(s, less) && |ups| == s.maxLevel + 1 && |chains'| == s.maxLevel + 1
    requires ups[0] + 1 < |s.chains[0]| && x == s.chains[0][ups[0] + 1]
    requires x != 0 && x < |s.nodes| && s.nodes[x].key == k && s.nodes[x].nodeLevel <= s.level
    requires forall j :: 0 <= j <= s.nodes[x].nodeLevel ==>
               ups[j] + 1 < |s.chains[j]| && s.chains[j][ups[j] + 1] == x &&
               chains'[j] == Unlink(s.chains[j], ups[j])
    requires forall j :: s.nodes[x].nodeLevel < j <= s.maxLevel ==> chains'[j] == s.chains[j]
    requires |nodes'| == |s.nodes| && SameShape(s.nodes, nodes')
    requires Linkage(nodes', chains')
    requires level' <= s.level
    requires forall j :: level' < j <= s.maxLevel ==> chains'[j] == [0]
    requires level' == 0 || |chains'[level']| > 1
    ensures k in s.contents
    ensures Sealed(ListState(nodes', chains', level', s.maxLevel, s.count - 1, s.contents - {k}), less)
    ensures Removed(s.chains, chains', nodes', k)
  {
    DeleteLevels(s, less, ups, x, nodes', chains');
    DeleteRemoved(s, less, ups[0], x, nodes', chains');
    DeleteTower(s, less, x, nodes', chains');
    DeleteContents(s, less, k, ups[0], nodes');
    StateBasics(s, less);
    var s' := ListState(nodes', chains', level', s.maxLevel, s.count - 1, s.contents - {k});
    assert Inv(s', less);
    Seal(s', less);
  }

  /** Unlinking the node with key k from an ascending level-0 chain drops
      that key from the map the chain stands for. */
  lemma DeleteAbstracts<K, V>(nodes: seq<Node<K, V>>, c: seq<nat>, contents: map<K, V>,
                              k: K, p: nat, nodes': seq<Node<K, V>>)
    requires forall q :: 0 <= q < |c| ==> c[q] < |nodes|
    requires Abstracts(nodes, c, contents)
    requires p + 1 < |c| && nodes[c[p + 1]].key == k
    requires forall q :: 1 <= q < |c| && q != p + 1 ==> nodes[c[q]].key != k
    requires |nodes'| == |nodes| && SameShape(nodes, nodes')
    ensures k in contents
    ensures Abstracts(nodes', Unlink(c, p), contents - {k})
  {
    var c0' := Unlink(c, p);
    assert ValueAt(nodes, c, p + 1) == nodes[c[p + 1]].value;
    forall q | 1 <= q < |c0'| && c0'[q] < |nodes'|
      ensures nodes'[c0'[q]].key in contents - {k}
      ensures (contents - {k})[nodes'[c0'[q]].key] == ValueAt(nodes', c0', q)
    {
      var q0 := if q <= p then q else q + 1;
      assert c0'[q] == c[q0];
      assert ValueAt(nodes, c, q0) == nodes[c[q0]].value;
    }
    forall key | key in contents - {k}
      ensures exists q :: 1 <= q < |c0'| && c0'[q] < |nodes'| && nodes'[c0'[q]].key == key
    {
      assert key in contents && key != k;
      var q0 :| 1 <= q0 < |c| && c[q0] < |nodes| && nodes[c[q0]].key == key;
      assert q0 != p + 1;
      if q0 <= p {
        assert c0'[q0] == c[q0];
      } else {
        assert c0'[q0 - 1] == c[q0];
      }
    }
  }

  /** `SkipList<K, V>`: the object the source's methods update in place. */
  class SkipList<K(==, 0, !new), V(0)> {
    /** `operator<` of the key type. */
    const less: (K, K) -> bool
    /** `m_maxLevel`. */
    const maxLevel: nat
    /** `m_skipListLevel`, the current top level. */
    var level: nat
    /** `m_elementCount`. */
    var count: nat
    /** The nodes; nodes[0] is `m_header`. */
    var nodes: seq<Node<K, V>>
    /** chains[j]: the node indices on level j, from the header. */
    ghost var chains: seq<seq<nat>>
    /** The map the list stands for. */
    ghost var contents: map<K, V>

    ghost function State(): ListState<K, V>
      reads this
    {
      ListState(nodes, chains, level, maxLevel, count, contents)
    }

    ghost predicate Valid()
      reads this
    {
      Sealed(State(), less)
    }

    /** The entries of the level-0 chain in chain order. */
    ghost function Entries(): seq<(K, V)>
      reads this
      requires Valid()
    {
      LevelFacts(State(), less, 0);
      EntriesOf(nodes, chains[0])
    }

    /** `SkipList(int max_level)`: an empty list whose header has
        `maxLevel + 1` empty forward slots. */
    constructor (maxLevel: nat, less: (K, K) -> bool)
      requires StrictTotalOrder(less)
      ensures Valid()
      ensures this.maxLevel == maxLevel && this.less == less
      ensures level == 0 && count == 0 && contents == map[]
      ensures |nodes| == 1 && nodes[0].nodeLevel == maxLevel && |nodes[0].forward| == maxLevel + 1
      ensures forall i :: 0 <= i <= maxLevel ==> nodes[0].forward[i] == None
    {
      this.maxLevel := maxLevel;
      this.less := less;
      var headerKey: K := *;
      var headerValue: V := *;
      nodes := [NewNode(headerKey, headerValue, maxLevel)];
      level := 0;
      count := 0;
      chains := seq(maxLevel + 1, _ => [0]);
      contents := map[];
      new;
      forall j | 0 <= j <= maxLevel ensures LevelChain(nodes, chains[j], j, less) {
        assert chains[j] == [0];
      }
      Seal(State(), less);
    }

    /** `size()`. */
    function Size(): (n: nat)
      reads this
      requires Valid()
      ensures n == |contents|
    {
      count
    }

    /** `get_random_level()`, with `coins` standing for the successive
        outcomes of `rand() % 2`. */
    method GetRandomLevel(coins: seq<bool>) returns (r: nat)
      ensures r <= maxLevel
      ensures r == Min(LeadingTrues(coins), maxLevel)
    {
      var k := 0;
      while k < |coins| && coins[k]
        invariant k <= |coins|
        invariant forall i :: 0 <= i < k ==> coins[i]
      {
        k := k + 1;
      }
      r := if k < maxLevel then k else maxLevel;
    }

    /** The descent shared by `insert_element` and `delete_element`: from
        the top level down to 0, advance while the next key is below k, and
        record the node reached on each level in `update`. */
    method Descend(k: K) returns (update: array<nat>, ghost ups: seq<nat>)
      requires Valid()
      ensures fresh(update) && update.Length == maxLevel + 1 && |ups| == maxLevel + 1
      ensures forall j :: 0 <= j <= level ==>
                IsPred(nodes, chains[j], ups[j], k, less) && update[j] == chains[j][ups[j]]
    {
      update := new nat[maxLevel + 1];
      ups := seq(maxLevel + 1, _ => 0);
      var current := 0;
      ghost var p: nat := 0;
      var i: int := level;
      LevelFacts(State(), less, level);
      while i >= 0
        invariant -1 <= i <= level && |ups| == maxLevel + 1
        invariant i >= 0 ==> p < |chains[i]| && chains[i][p] == current
        invariant current == 0 || (current < |nodes| && less(nodes[current].key, k))
        invariant forall j :: i < j <= level ==>
                    IsPred(nodes, chains[j], ups[j], k, less) && update[j] == chains[j][ups[j]]
      {
        LevelFacts(State(), less, i);
        LinkedNext(nodes, chains[i], i, p);
        while nodes[current].forward[i] != None && less(nodes[nodes[current].forward[i].value].key, k)
          invariant p < |chains[i]| && chains[i][p] == current
          invariant current < |nodes| && (p + 1 < |chains[i]| ==> chains[i][p + 1] < |nodes|)
          invariant nodes[current].forward[i] == if p + 1 < |chains[i]| then Some(chains[i][p + 1]) else None
          invariant current == 0 || less(nodes[current].key, k)
          modifies {}
          decreases |chains[i]| - p
        {
          current := nodes[current].forward[i].value;
          p := p + 1;
          LinkedNext(nodes, chains[i], i, p);
        }
        assert IsPred(nodes, chains[i], p, k, less);
        update[i] := current;
        ups := ups[i := p];
        if i > 0 {
          p := TowerDown(State(), less, i, p);
        }
        i := i - 1;
      }
    }

    /** `search_element(key)`: true exactly when the key is in the list;
        nothing changes. */
    method Search(k: K) returns (found: bool)
      requires Valid()
      ensures found <==> k in contents
    {
      var current := 0;
      ghost var p: nat := 0;
      var i: int := level;
      LevelFacts(State(), less, level);
      while i >= 0
        invariant -1 <= i <= level
        invariant i >= 0 ==> p < |chains[i]| && chains[i][p] == current
        invariant current == 0 || (current < |nodes| && less(nodes[current].key, k))
        invariant i < 0 ==> IsPred(nodes, chains[0], p, k, less) && chains[0][p] == current
      {
        LevelFacts(State(), less, i);
        LinkedNext(nodes, chains[i], i, p);
        while nodes[current].forward[i] != None && less(nodes[nodes[current].forward[i].value].key, k)
          invariant p < |chains[i]| && chains[i][p] == current
          invariant nodes[current].forward[i] == if p + 1 < |chains[i]| then Some(chains[i][p + 1]) else None
          invariant current == 0 || (current < |nodes| && less(nodes[current].key, k))
          decreases |chains[i]| - p
        {
          current := nodes[current].forward[i].value;
          p := p + 1;
          LinkedNext(nodes, chains[i], i, p);
        }
        if i > 0 {
          p := TowerDown(State(), less, i, p);
        }
        i := i - 1;
      }
      LevelFacts(State(), less, 0);
      LinkedNext(nodes, chains[0], 0, p);
      Locate(State(), less, p, k);
      var next := nodes[current].forward[0];
      found := next != None && nodes[next.value].key == k;
    }

    /** `insert_element(k, v)`: 1 and no change when the key is present;
        otherwise 0, and a node of the drawn level is spliced in on levels
        0..that level, the top level rising to it if needed. */
    method Insert(k: K, v: V, coins: seq<bool>) returns (r: int)
      requires Valid()
      modifies this
      ensures Valid()
      ensures r == (if k in old(contents) then 1 else 0)
      ensures k in old(contents) ==>
                nodes == old(nodes) && chains == old(chains) && level == old(level) &&
                count == old(count) && contents == old(contents)
      ensures k !in old(contents) ==>
                var lvl := Min(LeadingTrues(coins), maxLevel);
                && contents == old(contents)[k := v]
                && count == old(count) + 1
                && level == Max(old(level), lvl)
                && |nodes| == old(|nodes|) + 1 && SameShape(old(nodes), nodes)
                && nodes[old(|nodes|)].key == k && nodes[old(|nodes|)].value == v
                && nodes[old(|nodes|)].nodeLevel == lvl
                && Added(old(chains), chains, old(|nodes|), lvl)
    {
      ghost var s := State();
      var update;
      ghost var ups: seq<nat>;
      update, ups := Descend(k);
      StateLinkage(s, less);
      LinkageAt(nodes, chains, 0, ups[0]);
      Locate(s, less, ups[0], k);
      var current := update[0];
      var next := nodes[current].forward[0];
      if next != None && nodes[next.value].key == k {
        assert State() == s;
        return 1;
      }
      var randLevel := GetRandomLevel(coins);
      AddNode(k, v, randLevel, update, ups);
      return 0;
    }

    /** The not-found branch of `insert_element`: with update[] holding the
        predecessors of k on levels 0..level, a node of level r is linked in
        after them, raising the list's level to r when r is higher. */
    method AddNode(k: K, v: V, r: nat, update: array<nat>, ghost ups: seq<nat>)
      requires Valid() && k !in contents && r <= maxLevel
      requires update.Length == maxLevel + 1 && |ups| == maxLevel + 1
      requires forall j :: 0 <= j <= level ==>
                 IsPred(nodes, chains[j], ups[j], k, less) && update[j] == chains[j][ups[j]]
      modifies this, update
      ensures Valid()
      ensures contents == old(contents)[k := v] && count == old(count) + 1
      ensures level == Max(old(level), r)
      ensures |nodes| == old(|nodes|) + 1 && SameShape(old(nodes), nodes)
      ensures nodes[old(|nodes|)].key == k && nodes[old(|nodes|)].value == v
      ensures nodes[old(|nodes|)].nodeLevel == r
      ensures Added(old(chains), chains, old(|nodes|), r)
    {
      ghost var s := State();
      ghost var ups' := RaiseLevel(k, r, update, ups, s);
      ghost var cs := SpliceIn(k, v, r, update, ups', s);
      SameShapeAppend(s.nodes, NewNode(k, v, r), nodes);
      count := count + 1;
      chains := cs;
      contents := contents[k := v];
      assert State() == ListState(nodes, cs, Max(s.level, r), s.maxLevel, s.count + 1, s.contents[k := v]);
    }

    /** The level raise of `insert_element`: when the new node's level r is
        above the list's level, the header becomes the predecessor on each
        new level and the list's level becomes r. */
    method RaiseLevel(k: K, r: nat, update: array<nat>, ghost ups: seq<nat>, ghost s: ListState<K, V>)
      returns (ghost ups': seq<nat>)
      requires Sealed(s, less) && s.level == level && s.maxLevel == maxLevel
      requires r <= maxLevel && update.Length == maxLevel + 1 && |ups| == maxLevel + 1
      requires forall j :: 0 <= j <= s.level ==>
                 IsPred(s.nodes, s.chains[j], ups[j], k, less) && update[j] == s.chains[j][ups[j]]
      modifies update, this`level
      ensures level == Max(s.level, r) && |ups'| == maxLevel + 1
      ensures forall j :: 0 <= j <= r ==>
                IsPred(s.nodes, s.chains[j], ups'[j], k, less) && update[j] == s.chains[j][ups'[j]]
    {
      ups' := ups;
      if r > level {
        for i := level + 1 to r + 1
          invariant |ups'| == maxLevel + 1 && level == s.level
          invariant forall j :: 0 <= j <= s.level ==>
                      IsPred(s.nodes, s.chains[j], ups'[j], k, less) && update[j] == s.chains[j][ups'[j]]
          invariant forall j :: s.level < j < i ==>
                      IsPred(s.nodes, s.chains[j], ups'[j], k, less) && update[j] == s.chains[j][ups'[j]]
        {
          LevelFacts(s, less, i);
          update[i] := 0;
          ups' := ups'[i := 0];
        }
        level := r;
      }
    }

    /** The splice of `insert_element`: a node of level r is created at the
        end of the arena and linked in right after update[i] on each level
        i = 0..r; cs gives the new chains. */
    method SpliceIn(k: K, v: V, r: nat, update: array<nat>, ghost ups: seq<nat>, ghost s: ListState<K, V>)
      returns (ghost cs: seq<seq<nat>>)
      requires Sealed(s, less) && s.nodes == nodes && s.maxLevel == maxLevel
      requires r <= maxLevel && update.Length == maxLevel + 1 && |ups| == maxLevel + 1
      requires forall j :: 0 <= j <= r ==>
                 IsPred(s.nodes, s.chains[j], ups[j], k, less) && update[j] == s.chains[j][ups[j]]
      modifies this`nodes
      requires k !in s.contents
      ensures |nodes| == |s.nodes| + 1 && SameShape(s.nodes + [NewNode(k, v, r)], nodes)
      ensures |cs| == maxLevel + 1
      ensures Sealed(ListState(nodes, cs, Max(s.level, r), s.maxLevel, s.count + 1, s.contents[k := v]), less)
      ensures Added(s.chains, cs, |s.nodes|, r)
    {
      var n := |nodes|;
      var node := NewNode(k, v, r);
      nodes := nodes + [node];
      LinkageGrow(s.nodes, [node], s.chains);
      ghost var grown := nodes;
      cs := s.chains;
      for i := 0 to r + 1
        modifies this`nodes
        invariant |nodes| == n + 1 && SameShape(grown, nodes)
        invariant |cs| == maxLevel + 1 && Linkage(nodes, cs)
        invariant forall j :: 0 <= j < i ==> ups[j] < |s.chains[j]| && cs[j] == Splice(s.chains[j], ups[j], n)
        invariant forall j :: i <= j <= maxLevel ==> cs[j] == s.chains[j]
      {
        LevelDistinct(s, less, i);
        InArena(s, less, i);
        SpliceStep(nodes, cs, i, ups[i], n);
        var u := update[i];
        nodes := SetForward(nodes, n, i, nodes[u].forward[i]);
        nodes := SetForward(nodes, u, i, Some(n));
        cs := cs[i := Splice(cs[i], ups[i], n)];
      }
      InsertInv(s, less, k, v, r, ups, nodes, cs);
    }

    /** The unlink loop of `delete_element`: on each level of node x, from
        its own down to 0, update[i] is made to skip x; cs gives the new
        chains. */
    method UnlinkNode(x: nat, update: array<nat>, ghost ups: seq<nat>, ghost s: ListState<K, V>)
      returns (ghost cs: seq<seq<nat>>)
      requires Sealed(s, less) && s.nodes == nodes && s.maxLevel == maxLevel
      requires x < |nodes| && nodes[x].nodeLevel <= s.level
      requires update.Length == maxLevel + 1 && |ups| == maxLevel + 1
      requires forall j :: 0 <= j <= nodes[x].nodeLevel ==>
                 ups[j] + 1 < |s.chains[j]| && s.chains[j][ups[j] + 1] == x && update[j] == s.chains[j][ups[j]]
      modifies this`nodes
      ensures |nodes| == |s.nodes| && SameShape(s.nodes, nodes)
      ensures |cs| == maxLevel + 1 && Linkage(nodes, cs)
      ensures forall j :: 0 <= j <= s.nodes[x].nodeLevel ==> cs[j] == Unlink(s.chains[j], ups[j])
      ensures forall j :: s.nodes[x].nodeLevel < j <= maxLevel ==> cs[j] == s.chains[j]
    {
      var L := nodes[x].nodeLevel;
      StateLinkage(s, less);
      cs := s.chains;
      var i: int := L;
      while i >= 0
        modifies this`nodes
        invariant -1 <= i <= L
        invariant |nodes| == |s.nodes| && SameShape(s.nodes, nodes)
        invariant |cs| == maxLevel + 1 && Linkage(nodes, cs)
        invariant forall j :: i < j <= L ==> cs[j] == Unlink(s.chains[j], ups[j])
        invariant forall j :: 0 <= j <= i || L < j <= maxLevel ==> cs[j] == s.chains[j]
      {
        LevelDistinct(s, less, i);
        UnlinkStep(nodes, cs, i, ups[i]);
        var u := update[i];
        nodes := SetForward(nodes, u, i, nodes[x].forward[i]);
        cs := cs[i := Unlink(cs[i], ups[i])];
        i := i - 1;
      }
    }

    /** `delete_element(key)`: a present key's node is unlinked from each of
        its levels, the top level shrinks past emptied levels and the count
        drops by one; an absent key changes nothing. */
    method Delete(k: K)
      requires Valid()
      modifies this
      ensures Valid()
      ensures contents == old(contents) - {k}
      ensures k !in old(contents) ==>
                nodes == old(nodes) && chains == old(chains) && level == old(level) && count == old(count)
      ensures k in old(contents) ==>
                && count == old(count) - 1
                && level <= old(level)
                && |nodes| == old(|nodes|) && SameShape(old(nodes), nodes)
                && Removed(old(chains), chains, nodes, k)
    {
      ghost var s := State();
      var update;
      ghost var ups: seq<nat>;
      update, ups := Descend(k);
      StateLinkage(s, less);
      LinkageAt(nodes, chains, 0, ups[0]);
      Locate(s, less, ups[0], k);
      var current := update[0];
      var next := nodes[current].forward[0];
      if next != None && nodes[next.value].key == k {
        RemoveNode(k, next.value, update, ups);
      } else {
        assert State() == s;
        assert old(contents) - {k} == old(contents);
      }
    }

    /** The found branch of `delete_element`: node x, the successor of
        update[0] on level 0, carries k; it is unlinked from each of its
        levels, the level shrinks past emptied levels and the count drops. */
    method RemoveNode(k: K, x: nat, update: array<nat>, ghost ups: seq<nat>)
      requires Valid()
      requires update.Length == maxLevel + 1 && |ups| == maxLevel + 1
      requires forall j :: 0 <= j <= level ==>
                 IsPred(nodes, chains[j], ups[j], k, less) && update[j] == chains[j][ups[j]]
      requires ups[0] + 1 < |chains[0]| && x == chains[0][ups[0] + 1]
      requires x < |nodes| && nodes[x].key == k
      modifies this
      ensures Valid()
      ensures k in old(contents) && contents == old(contents) - {k}
      ensures count == old(count) - 1 && level <= old(level)
      ensures |nodes| == old(|nodes|) && SameShape(old(nodes), nodes)
      ensures Removed(old(chains), chains, nodes, k)
    {
      ghost var s := State();
      DeleteTarget(s, less, k, ups);
      ghost var cs := UnlinkNode(x, update, ups, s);
      AboveLevel(s, less);
      forall j | 0 <= j <= maxLevel
        ensures |cs[j]| >= 1 && cs[j][0] == 0
      {
        LevelFacts(s, less, j);
      }
      ShrinkLevel(cs);
      DeleteInv(s, less, k, ups, x, nodes, cs, level);
      count := count - 1;
      chains := cs;
      contents := contents - {k};
      assert State() == ListState(nodes, cs, level, s.maxLevel, s.count - 1, s.contents - {k});
    }

    /** The shrink loop of `delete_element`: the level drops while the
        header has no successor on it, never below 0. */
    method ShrinkLevel(ghost cs: seq<seq<nat>>)
      requires |nodes| >= 1 && |nodes[0].forward| == maxLevel + 1
      requires |cs| == maxLevel + 1 && Linkage(nodes, cs) && level <= maxLevel
      requires forall j :: 0 <= j <= maxLevel ==> |cs[j]| >= 1 && cs[j][0] == 0
      requires forall j :: level < j <= maxLevel ==> cs[j] == [0]
      modifies this`level
      ensures level <= old(level)
      ensures forall j :: level < j <= maxLevel ==> cs[j] == [0]
      ensures level == 0 || |cs[level]| > 1
    {
      while level > 0 && nodes[0].forward[level] == None
        invariant level <= old(level)
        invariant forall j :: level < j <= maxLevel ==> cs[j] == [0]
      {
        LinkageAt(nodes, cs, level, 0);
        level := level - 1;
      }
      if level > 0 {
        LinkageAt(nodes, cs, level, 0);
      }
    }
  }
}
