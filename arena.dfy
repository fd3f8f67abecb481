/** The node graph of the skip list, kept in an arena: a sequence of nodes
    addressed by index, with the header sentinel at index 0.  A forward
    slot holds the index of the next node on that level, or None for the
    end of the level (the source's `nullptr`).

    A level's chain is described by the sequence of node indices met when
    following that level's forward slots from the header (the header
    included, at position 0).  The predicates and lemmas here are about
    such chains: how they are linked, ordered, spliced and unlinked. */
module Arena {
  import opened Order

  datatype Option<T> = None | Some(value: T)

  /** `Node<K, V>`: a key, a value, the node's level, and one forward slot
      per level `0..nodeLevel`. */
  datatype Node<K, V> = Node(key: K, value: V, nodeLevel: nat, forward: seq<Option<nat>>)

  /** The `Node(k, v, level)` constructor: `level + 1` forward slots, all empty. */
  function NewNode<K, V>(k: K, v: V, level: nat): (n: Node<K, V>)
    ensures n.key == k && n.value == v && n.nodeLevel == level
    ensures |n.forward| == level + 1
    ensures forall i :: 0 <= i < |n.forward| ==> n.forward[i] == None
  {
    Node(k, v, level, seq(level + 1, _ => None))
  }

  /** Two arenas agree on everything but forward-slot contents, on the
      first |a| nodes. */
  ghost predicate SameShape<K, V>(a: seq<Node<K, V>>, b: seq<Node<K, V>>) {
    && |a| <= |b|
    && forall y :: 0 <= y < |a| ==>
         && b[y].key == a[y].key && b[y].value == a[y].value
         && b[y].nodeLevel == a[y].nodeLevel && |b[y].forward| == |a[y].forward|
  }

  /** `nodes[x]->m_forward[i] = t`: only that one slot changes. */
  function SetForward<K, V>(nodes: seq<Node<K, V>>, x: nat, i: nat, t: Option<nat>): (r: seq<Node<K, V>>)
    requires x < |nodes| && i < |nodes[x].forward|
    ensures |r| == |nodes| && SameShape(nodes, r)
    ensures r[x].forward[i] == t
    ensures forall y, j :: 0 <= y < |r| && 0 <= j < |r[y].forward| && (y != x || j != i) ==>
              r[y].forward[j] == nodes[y].forward[j]
  {
    nodes[x := nodes[x].(forward := nodes[x].forward[i := t])]
  }

  /** Following level j's forward slots from c[0] visits exactly c. */
  ghost predicate Linked<K, V>(nodes: seq<Node<K, V>>, c: seq<nat>, j: nat) {
    && (forall p :: 0 <= p < |c| ==> c[p] < |nodes| && j < |nodes[c[p]].forward|)
    && (forall p {:trigger nodes[c[p]].forward[j]} :: 0 <= p < |c| ==>
          nodes[c[p]].forward[j] == if p + 1 < |c| then Some(c[p + 1]) else None)
  }

  /** The forward slot of the node at position p names the one at p + 1. */
  lemma LinkedNext<K, V>(nodes: seq<Node<K, V>>, c: seq<nat>, j: nat, p: nat)
    requires Linked(nodes, c, j) && p < |c|
    ensures c[p] < |nodes| && j < |nodes[c[p]].forward|
    ensures nodes[c[p]].forward[j] == if p + 1 < |c| then Some(c[p + 1]) else None
    ensures p + 1 < |c| ==> c[p + 1] < |nodes|
  {
  }

  /** The key of the node at position p of chain c. */
  ghost function KeyAt<K, V>(nodes: seq<Node<K, V>>, c: seq<nat>, p: nat): K
    requires p < |c| && c[p] < |nodes|
  {
    nodes[c[p]].key
  }

  /** The keys along the chain after the header strictly increase. */
  ghost predicate Ascending<K, V>(nodes: seq<Node<K, V>>, c: seq<nat>, less: (K, K) -> bool) {
    forall p, q {:trigger KeyAt(nodes, c, p), KeyAt(nodes, c, q)} ::
      1 <= p < q < |c| && c[p] < |nodes| && c[q] < |nodes| ==>
        less(KeyAt(nodes, c, p), KeyAt(nodes, c, q))
  }

  /** One instance of Ascending. */
  lemma AscendingAt<K, V>(nodes: seq<Node<K, V>>, c: seq<nat>, less: (K, K) -> bool, p: nat, q: nat)
    requires Ascending(nodes, c, less)
    requires 1 <= p < q < |c| && c[p] < |nodes| && c[q] < |nodes|
    ensures less(nodes[c[p]].key, nodes[c[q]].key)
  {
    assert less(KeyAt(nodes, c, p), KeyAt(nodes, c, q));
  }

  /** c is a well-formed level-j chain: it starts at the header, never
      returns to it, is linked through level-j slots and is ordered. */
  ghost predicate LevelChain<K, V>(nodes: seq<Node<K, V>>, c: seq<nat>, j: nat, less: (K, K) -> bool) {
    && |c| >= 1 && c[0] == 0
    && (forall p :: 1 <= p < |c| ==> c[p] != 0)
    && Linked(nodes, c, j)
    && Ascending(nodes, c, less)
  }

  /** c[p] is the node the descent stops at for key k: the last node of the
      chain whose key is below k (the header if there is none), i.e. the
      `update[j]` of the source. */
  ghost predicate IsPred<K, V>(nodes: seq<Node<K, V>>, c: seq<nat>, p: nat, k: K, less: (K, K) -> bool) {
    && p < |c| && c[p] < |nodes| && (p + 1 < |c| ==> c[p + 1] < |nodes|)
    && (p == 0 || less(nodes[c[p]].key, k))
    && (p + 1 == |c| || !less(nodes[c[p + 1]].key, k))
  }

  /** The new node n, spliced in right after position p. */
  function Splice(c: seq<nat>, p: nat, n: nat): (r: seq<nat>)
    requires p < |c|
    ensures |r| == |c| + 1
    ensures forall q :: 0 <= q <= p ==> r[q] == c[q]
    ensures r[p + 1] == n
    ensures forall q :: p + 1 < q < |r| ==> r[q] == c[q - 1]
  {
    c[..p + 1] + [n] + c[p + 1..]
  }

  /** The node at position p + 1 taken out of the chain. */
  function Unlink(c: seq<nat>, p: nat): (r: seq<nat>)
    requires p + 1 < |c|
    ensures |r| == |c| - 1
    ensures forall q :: 0 <= q <= p ==> r[q] == c[q]
    ensures forall q :: p < q < |r| ==> r[q] == c[q + 1]
  {
    c[..p + 1] + c[p + 2..]
  }

  lemma SpliceMembers(c: seq<nat>, p: nat, n: nat)
    requires p < |c|
    ensures forall x :: x in Splice(c, p, n) <==> x in c || x == n
  {
    var r := Splice(c, p, n);
    forall x | x in c ensures x in r {
      var q :| 0 <= q < |c| && c[q] == x;
      if q <= p { assert r[q] == x; } else { assert r[q + 1] == x; }
    }
    assert r[p + 1] == n;
    forall x | x in r ensures x in c || x == n {
      var q :| 0 <= q < |r| && r[q] == x;
      if q <= p { assert c[q] == x; } else if q > p + 1 { assert c[q - 1] == x; }
    }
  }

  lemma UnlinkMembers(c: seq<nat>, p: nat)
    requires p + 1 < |c|
    requires forall q :: 0 <= q < |c| && q != p + 1 ==> c[q] != c[p + 1]
    ensures forall x :: x in Unlink(c, p) <==> x in c && x != c[p + 1]
  {
    var r := Unlink(c, p);
    forall x | x in c && x != c[p + 1] ensures x in r {
      var q :| 0 <= q < |c| && c[q] == x;
      if q <= p { assert r[q] == x; } else { assert r[q - 1] == x; }
    }
    forall x | x in r ensures x in c && x != c[p + 1] {
      var q :| 0 <= q < |r| && r[q] == x;
      if q <= p { assert c[q] == x; } else { assert c[q + 1] == x; }
    }
  }

  /** The positions of a level chain hold distinct nodes. */
  lemma ChainDistinct<K(!new), V>(nodes: seq<Node<K, V>>, c: seq<nat>, j: nat, less: (K, K) -> bool, p: nat, q: nat)
    requires StrictTotalOrder(less) && LevelChain(nodes, c, j, less)
    requires p < q < |c|
    ensures c[p] != c[q]
  {
    if p > 0 {
      assert less(KeyAt(nodes, c, p), KeyAt(nodes, c, q));
    }
  }

  /** Distinct positions after the header carry distinct keys. */
  lemma KeysDistinct<K(!new), V>(nodes: seq<Node<K, V>>, c: seq<nat>, j: nat, less: (K, K) -> bool, p: nat, q: nat)
    requires StrictTotalOrder(less) && LevelChain(nodes, c, j, less)
    requires 1 <= p < |c| && 1 <= q < |c| && p != q
    ensures nodes[c[p]].key != nodes[c[q]].key
  {
    if p < q {
      assert less(KeyAt(nodes, c, p), KeyAt(nodes, c, q));
    } else {
      assert less(KeyAt(nodes, c, q), KeyAt(nodes, c, p));
    }
  }

  /** Where the descent stops, the node with key k (if any) comes next. */
  lemma PredPosition<K(!new), V>(nodes: seq<Node<K, V>>, c: seq<nat>, j: nat, less: (K, K) -> bool,
                                 p: nat, q: nat, k: K)
    requires StrictTotalOrder(less) && LevelChain(nodes, c, j, less)
    requires IsPred(nodes, c, p, k, less)
    requires 1 <= q < |c| && nodes[c[q]].key == k
    ensures q == p + 1
  {
    if q < p {
      AscendingAt(nodes, c, less, q, p);
    } else if q > p + 1 {
      AscendingAt(nodes, c, less, p + 1, q);
    }
  }

  /** Keys before the stopping point are below k, keys after it are above k,
      when k itself is absent. */
  lemma PredSplits<K(!new), V>(nodes: seq<Node<K, V>>, c: seq<nat>, j: nat, less: (K, K) -> bool,
                               p: nat, k: K)
    requires StrictTotalOrder(less) && LevelChain(nodes, c, j, less)
    requires IsPred(nodes, c, p, k, less)
    requires forall q :: 1 <= q < |c| ==> nodes[c[q]].key != k
    ensures forall q :: 1 <= q <= p ==> less(nodes[c[q]].key, k)
    ensures forall q :: p < q < |c| ==> less(k, nodes[c[q]].key)
  {
    forall q | 1 <= q <= p ensures less(nodes[c[q]].key, k) {
      if q < p {
        assert less(KeyAt(nodes, c, q), KeyAt(nodes, c, p));
      }
    }
    if p + 1 < |c| {
      assert less(k, nodes[c[p + 1]].key);
      forall q | p + 1 < q < |c| ensures less(k, nodes[c[q]].key) {
        assert less(KeyAt(nodes, c, p + 1), KeyAt(nodes, c, q));
      }
    }
  }

  /** Linking is preserved by a change of a slot on another level. */
  lemma LinkedOtherLevel<K, V>(nodes: seq<Node<K, V>>, x: nat, i: nat, t: Option<nat>, c: seq<nat>, j: nat)
    requires x < |nodes| && i < |nodes[x].forward| && i != j
    requires Linked(nodes, c, j)
    ensures Linked(SetForward(nodes, x, i, t), c, j)
  {
  }

  /** Linking is preserved by adding nodes at the end of the arena. */
  lemma LinkedGrow<K, V>(nodes: seq<Node<K, V>>, more: seq<Node<K, V>>, c: seq<nat>, j: nat)
    requires Linked(nodes, c, j)
    ensures Linked(nodes + more, c, j)
  {
  }

  /** A term that only the proofs write: a quantifier guarded by it is
      instantiated only where a proof asks for it. */
  ghost predicate Unfold(n: nat) {
    true
  }

  /** Every level j of the arena is linked as the chain cs[j]. */
  ghost predicate AllLinked<K, V>(nodes: seq<Node<K, V>>, cs: seq<seq<nat>>) {
    forall j :: 0 <= j < |cs| ==> Linked(nodes, cs[j], j)
  }

  /** AllLinked behind a guard: the form the imperative code carries, so
      that its proof steps see only what the lemmas below hand back. */
  ghost predicate Linkage<K, V>(nodes: seq<Node<K, V>>, cs: seq<seq<nat>>) {
    forall n: nat {:trigger Unfold(n)} :: Unfold(n) ==> AllLinked(nodes, cs)
  }

  lemma OpenLinkage<K, V>(nodes: seq<Node<K, V>>, cs: seq<seq<nat>>)
    requires Linkage(nodes, cs)
    ensures AllLinked(nodes, cs)
  {
    assert Unfold(0);
  }

  /** Following a forward slot under Linkage. */
  lemma LinkageAt<K, V>(nodes: seq<Node<K, V>>, cs: seq<seq<nat>>, j: nat, p: nat)
    requires Linkage(nodes, cs) && j < |cs| && p < |cs[j]|
    ensures cs[j][p] < |nodes| && j < |nodes[cs[j][p]].forward|
    ensures nodes[cs[j][p]].forward[j] == if p + 1 < |cs[j]| then Some(cs[j][p + 1]) else None
    ensures p + 1 < |cs[j]| ==> cs[j][p + 1] < |nodes|
  {
    OpenLinkage(nodes, cs);
    LinkedNext(nodes, cs[j], j, p);
  }

  /** Appending nodes to the arena keeps every level linked. */
  lemma LinkageGrow<K, V>(nodes: seq<Node<K, V>>, more: seq<Node<K, V>>, cs: seq<seq<nat>>)
    requires Linkage(nodes, cs)
    ensures Linkage(nodes + more, cs)
  {
    OpenLinkage(nodes, cs);
    forall j | 0 <= j < |cs| ensures Linked(nodes + more, cs[j], j) {
      LinkedGrow(nodes, more, cs[j], j);
    }
    assert AllLinked(nodes + more, cs);
  }

  /** One step of the splice loop of `insert_element` on level i, with the
      other levels untouched. */
  lemma SpliceStep<K, V>(nodes: seq<Node<K, V>>, cs: seq<seq<nat>>, i: nat, p: nat, n: nat)
    requires Linkage(nodes, cs) && i < |cs| && p < |cs[i]|
    requires forall q, r :: 0 <= q < r < |cs[i]| ==> cs[i][q] != cs[i][r]
    requires n < |nodes| && i < |nodes[n].forward| && n !in cs[i]
    ensures cs[i][p] < |nodes| && i < |nodes[cs[i][p]].forward|
    ensures var a := SetForward(nodes, n, i, nodes[cs[i][p]].forward[i]);
      Linkage(SetForward(a, cs[i][p], i, Some(n)), cs[i := Splice(cs[i], p, n)])
  {
    OpenLinkage(nodes, cs);
    LinkedNext(nodes, cs[i], i, p);
    var u := cs[i][p];
    var a := SetForward(nodes, n, i, nodes[u].forward[i]);
    var b := SetForward(a, u, i, Some(n));
    var cs' := cs[i := Splice(cs[i], p, n)];
    SpliceLinked(nodes, cs[i], p, n, i);
    forall j | 0 <= j < |cs'| ensures Linked(b, cs'[j], j) {
      if j != i {
        LinkedOtherLevel(nodes, n, i, nodes[u].forward[i], cs[j], j);
        LinkedOtherLevel(a, u, i, Some(n), cs[j], j);
      }
    }
    assert AllLinked(b, cs');
  }

  /** One step of the unlink loop of `delete_element` on level i, with the
      other levels untouched. */
  lemma UnlinkStep<K, V>(nodes: seq<Node<K, V>>, cs: seq<seq<nat>>, i: nat, p: nat)
    requires Linkage(nodes, cs) && i < |cs| && p + 1 < |cs[i]|
    requires forall q, r :: 0 <= q < r < |cs[i]| ==> cs[i][q] != cs[i][r]
    ensures cs[i][p] < |nodes| && i < |nodes[cs[i][p]].forward|
    ensures cs[i][p + 1] < |nodes| && i < |nodes[cs[i][p + 1]].forward|
    ensures Linkage(SetForward(nodes, cs[i][p], i, nodes[cs[i][p + 1]].forward[i]), cs[i := Unlink(cs[i], p)])
  {
    OpenLinkage(nodes, cs);
    LinkedNext(nodes, cs[i], i, p);
    LinkedNext(nodes, cs[i], i, p + 1);
    var u := cs[i][p];
    var b := SetForward(nodes, u, i, nodes[cs[i][p + 1]].forward[i]);
    var cs' := cs[i := Unlink(cs[i], p)];
    UnlinkLinked(nodes, cs[i], p, i);
    forall j | 0 <= j < |cs'| ensures Linked(b, cs'[j], j) {
      if j != i {
        LinkedOtherLevel(nodes, u, i, nodes[cs[i][p + 1]].forward[i], cs[j], j);
      }
    }
    assert AllLinked(b, cs');
  }

  /** The two assignments of one splice step of `insert_element`:
      `n->m_forward[j] = update[j]->m_forward[j]; update[j]->m_forward[j] = n`. */
  lemma SpliceLinked<K, V>(nodes: seq<Node<K, V>>, c: seq<nat>, p: nat, n: nat, j: nat)
    requires Linked(nodes, c, j) && p < |c|
    requires forall q, s :: 0 <= q < s < |c| ==> c[q] != c[s]
    requires n < |nodes| && j < |nodes[n].forward| && n !in c
    ensures
      var a := SetForward(nodes, n, j, nodes[c[p]].forward[j]);
      Linked(SetForward(a, c[p], j, Some(n)), Splice(c, p, n), j)
  {
    var a := SetForward(nodes, n, j, nodes[c[p]].forward[j]);
    var b := SetForward(a, c[p], j, Some(n));
    var r := Splice(c, p, n);
    forall q | 0 <= q < |r|
      ensures r[q] < |b| && j < |b[r[q]].forward|
      ensures b[r[q]].forward[j] == (if q + 1 < |r| then Some(r[q + 1]) else None)
    {
      if q < p {
        assert r[q] == c[q] && r[q + 1] == c[q + 1] && c[q] != c[p] && c[q] != n;
      } else if q == p {
        assert r[q + 1] == n;
      } else if q == p + 1 {
        assert c[p] != n;
        assert b[n].forward[j] == nodes[c[p]].forward[j];
      } else {
        assert r[q] == c[q - 1] && c[q - 1] != c[p] && c[q - 1] != n;
      }
    }
  }

  /** One unlink step of `delete_element`:
      `update[j]->m_forward[j] = x->m_forward[j]` with x = c[p + 1]. */
  lemma UnlinkLinked<K, V>(nodes: seq<Node<K, V>>, c: seq<nat>, p: nat, j: nat)
    requires Linked(nodes, c, j) && p + 1 < |c|
    requires forall q, s :: 0 <= q < s < |c| ==> c[q] != c[s]
    ensures Linked(SetForward(nodes, c[p], j, nodes[c[p + 1]].forward[j]), Unlink(c, p), j)
  {
  }

  lemma SpliceAscending<K(!new), V>(nodes: seq<Node<K, V>>, c: seq<nat>, p: nat, n: nat, less: (K, K) -> bool)
    requires StrictTotalOrder(less) && p < |c| && n < |nodes|
    requires Ascending(nodes, c, less)
    requires forall q :: 1 <= q <= p && c[q] < |nodes| ==> less(nodes[c[q]].key, nodes[n].key)
    requires forall q :: p < q < |c| && c[q] < |nodes| ==> less(nodes[n].key, nodes[c[q]].key)
    ensures Ascending(nodes, Splice(c, p, n), less)
  {
    var r := Splice(c, p, n);
    forall a, b | 1 <= a < b < |r| && r[a] < |nodes| && r[b] < |nodes|
      ensures less(KeyAt(nodes, r, a), KeyAt(nodes, r, b))
    {
      if b <= p {
        assert less(KeyAt(nodes, c, a), KeyAt(nodes, c, b));
      } else if b == p + 1 {
      } else if a <= p {
        assert less(nodes[c[a]].key, nodes[n].key);
        assert less(nodes[n].key, nodes[c[b - 1]].key);
      } else if a == p + 1 {
      } else {
        assert r[a] == c[a - 1] && r[b] == c[b - 1];
        assert less(KeyAt(nodes, c, a - 1), KeyAt(nodes, c, b - 1));
      }
    }
  }

  lemma UnlinkAscending<K, V>(nodes: seq<Node<K, V>>, c: seq<nat>, p: nat, less: (K, K) -> bool)
    requires p + 1 < |c| && Ascending(nodes, c, less)
    ensures Ascending(nodes, Unlink(c, p), less)
  {
    var r := Unlink(c, p);
    forall a, b | 1 <= a < b < |r| && r[a] < |nodes| && r[b] < |nodes|
      ensures less(KeyAt(nodes, r, a), KeyAt(nodes, r, b))
    {
      var a' := if a <= p then a else a + 1;
      var b' := if b <= p then b else b + 1;
      assert r[a] == c[a'] && r[b] == c[b'];
      assert less(KeyAt(nodes, c, a'), KeyAt(nodes, c, b'));
    }
  }

  /** Ordering only depends on keys, which forward-slot changes keep. */
  lemma AscendingSameShape<K, V>(a: seq<Node<K, V>>, b: seq<Node<K, V>>, c: seq<nat>, less: (K, K) -> bool)
    requires SameShape(a, b) && Ascending(a, c, less)
    requires forall q :: 0 <= q < |c| ==> c[q] < |a|
    ensures Ascending(b, c, less)
  {
    forall p, q | 1 <= p < q < |c| && c[p] < |b| && c[q] < |b|
      ensures less(KeyAt(b, c, p), KeyAt(b, c, q))
    {
      assert less(KeyAt(a, c, p), KeyAt(a, c, q));
    }
  }
}
