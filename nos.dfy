/**
 The tree node shared by the unbalanced and the balanced search tree, with
 the abstract views the two trees are specified against, and the parts of
 the two trees whose code is the same in both: the recursive search, the
 leftmost-node walk and the in-order rendering.

 The repository's node class No is not part of this model; this datatype is
 its stand-in: key, item, left and right children and the cached height the
 AVL tree maintains (an empty subtree has height 0, a leaf height 1).
 */
module Nos {
  import opened Comum

  datatype No<K, V> = Nil | Node(left: No<K, V>, key: K, item: V, right: No<K, V>, altura: int)

  /** `new No<>(chave, item)`: a leaf of height 1. */
  function Folha<K, V>(k: K, v: V): No<K, V>
  {
    Node(Nil, k, v, Nil, 1)
  }

  /** Number of nodes. */
  function Size<K, V>(t: No<K, V>): nat
  {
    match t
    case Nil => 0
    case Node(l, _, _, r, _) => Size(l) + 1 + Size(r)
  }

  /** The key/item pairs in in-order position (left subtree, node, right subtree). */
  function InOrder<K, V>(t: No<K, V>): seq<(K, V)>
  {
    match t
    case Nil => []
    case Node(l, k, v, r, _) => InOrder(l) + [(k, v)] + InOrder(r)
  }

  /**
   The map the tree stands for. The three parts are joined in in-order
   position, so on a search tree (disjoint parts) it is simply their union.
   */
  function Elements<K, V>(t: No<K, V>): map<K, V>
  {
    match t
    case Nil => map[]
    case Node(l, k, v, r, _) => Elements(l) + map[k := v] + Elements(r)
  }

  function Keys<K, V>(t: No<K, V>): set<K>
  {
    Elements(t).Keys
  }

  /** Number of nodes on the longest path from the root: 0 for an empty tree. */
  function Height<K, V>(t: No<K, V>): nat
  {
    match t
    case Nil => 0
    case Node(l, _, _, r, _) => 1 + Max(Height(l), Height(r))
  }

  /**
   The search-tree order: every key of a left subtree compares less than
   the node's key and every key of a right subtree compares greater.
   */
  ghost predicate IsBST<K(!new), V>(cmp: (K, K) -> int, t: No<K, V>)
  {
    match t
    case Nil => true
    case Node(l, k, _, r, _) =>
      && (forall x :: x in Keys(l) ==> cmp(x, k) < 0)
      && (forall x :: x in Keys(r) ==> cmp(x, k) > 0)
      && IsBST(cmp, l) && IsBST(cmp, r)
  }

  /**
   Depth (1 for the root) of the node holding `k`, located by membership
   rather than by comparison.
   */
  ghost function Depth<K, V>(t: No<K, V>, k: K): nat
    requires k in Keys(t)
  {
    if t.key == k then 1
    else if k in Keys(t.left) then 1 + Depth(t.left, k)
    else 1 + Depth(t.right, k)
  }

  /** The node holding `k`, located by membership. */
  ghost function NodeAt<K, V>(t: No<K, V>, k: K): (n: No<K, V>)
    requires k in Keys(t)
    ensures n.Node? && n.key == k
  {
    if t.key == k then t
    else if k in Keys(t.left) then NodeAt(t.left, k)
    else NodeAt(t.right, k)
  }

  /** Same nodes in the same places with the same keys and heights: only items may differ. */
  ghost predicate SameShape<K, V>(a: No<K, V>, b: No<K, V>)
  {
    match (a, b)
    case (Nil, Nil) => true
    case (Node(al, ak, _, ar, ah), Node(bl, bk, _, br, bh)) =>
      ak == bk && ah == bh && SameShape(al, bl) && SameShape(ar, br)
    case _ => false
  }

  /** What the recursive `pesquisar` produces: the item, or none, and the visits it counted. */
  datatype Lookup<V> = Lookup(found: Option<V>, comparisons: nat)

  /**
   The recursive `pesquisar(raizArvore, procurado)` (src/ABB.java:103-125,
   identical in src/AVL.java:42-57): one comparison counted per visited
   node, the empty subtree that ends a miss included; a miss is `None`
   (where the Java code throws).
   */
  function Search<K, V>(cmp: (K, K) -> int, t: No<K, V>, k: K): Lookup<V>
  {
    match t
    case Nil => Lookup(None, 1)
    case Node(l, key, item, r, _) =>
      var c := cmp(k, key);
      if c == 0 then Lookup(Some(item), 1)
      else
        var s := if c < 0 then Search(cmp, l, k) else Search(cmp, r, k);
        Lookup(s.found, s.comparisons + 1)
  }

  /** The leftmost node of a non-empty subtree, as `encontrarMenor` reaches it. */
  function Leftmost<K, V>(t: No<K, V>): (m: No<K, V>)
    requires t.Node?
    ensures m.Node? && m.left == Nil
  {
    if t.left == Nil then t else Leftmost(t.left)
  }

  /**
   The recursive `caminhamentoEmOrdem(raizArvore)` (src/ABB.java:190-208,
   identical in src/AVL.java:191-201), with the item's `toString` given
   as `render`.
   */
  function InOrderText<K, V>(t: No<K, V>, render: V -> string): string
  {
    match t
    case Nil => ""
    case Node(l, _, v, r, _) => InOrderText(l, render) + (render(v) + "\n") + InOrderText(r, render)
  }

  /** The line of one key/item pair: the item's text. */
  function ItemLine<K, V>(render: V -> string): ((K, V)) -> string
  {
    (p: (K, V)) => render(p.1)
  }

  // ---------------------------------------------------------------------
  // Facts about search trees
  // ---------------------------------------------------------------------

  /**
   In a search tree the three parts of a node are disjoint, so the map of
   the node is found in exactly the part the comparison points to.
   */
  lemma BstNode<K(!new), V>(cmp: (K, K) -> int, t: No<K, V>)
    requires TotalOrder(cmp) && IsBST(cmp, t) && t.Node?
    ensures t.key !in Keys(t.left) && t.key !in Keys(t.right)
    ensures Keys(t.left) !! Keys(t.right)
    ensures forall x :: x in Keys(t.left) ==> Elements(t)[x] == Elements(t.left)[x]
    ensures forall x :: x in Keys(t.right) ==> Elements(t)[x] == Elements(t.right)[x]
    ensures Elements(t)[t.key] == t.item
  {
    assert cmp(t.key, t.key) == 0;
    forall x | x in Keys(t.left)
      ensures x !in Keys(t.right)
    {
      assert cmp(x, t.key) < 0;
    }
  }

  /** `pesquisar` returns the item mapped to a present key and nothing for an absent one. */
  lemma {:induction false} SearchFinds<K(!new), V>(cmp: (K, K) -> int, t: No<K, V>, k: K)
    requires TotalOrder(cmp) && IsBST(cmp, t)
    ensures Search(cmp, t, k).found == if k in Elements(t) then Some(Elements(t)[k]) else None
  {
    match t
    case Nil =>
    case Node(l, key, _, r, _) =>
      BstNode(cmp, t);
      var c := cmp(k, key);
      if c < 0 {
        SearchFinds(cmp, l, k);
        assert k !in Keys(r) && k != key;
      } else if c > 0 {
        SearchFinds(cmp, r, k);
        assert k !in Keys(l) && k != key;
      }
  }

  /**
   The comparisons counted by `pesquisar`: on a hit, the depth of the node
   holding the key; always between 1 (the root, or the empty tree) and the
   height plus one (the empty subtree that ends a miss); on a hit never
   more than the height.
   */
  lemma {:induction false} SearchCost<K(!new), V>(cmp: (K, K) -> int, t: No<K, V>, k: K)
    requires TotalOrder(cmp) && IsBST(cmp, t)
    ensures k in Keys(t) ==> Search(cmp, t, k).comparisons == Depth(t, k) <= Height(t)
    ensures 1 <= Search(cmp, t, k).comparisons <= Height(t) + 1
  {
    match t
    case Nil =>
    case Node(l, key, _, r, _) =>
      BstNode(cmp, t);
      var c := cmp(k, key);
      if c < 0 {
        SearchCost(cmp, l, k);
        assert k !in Keys(r) && k != key;
      } else if c > 0 {
        SearchCost(cmp, r, k);
        assert k !in Keys(l) && k != key;
      }
  }

  /**
   The leftmost node of a search tree holds its least key (every other key
   compares greater) and that key's item.
   */
  lemma {:induction false} LeftmostIsMinimum<K(!new), V>(cmp: (K, K) -> int, t: No<K, V>)
    requires TotalOrder(cmp) && IsBST(cmp, t) && t.Node?
    ensures Leftmost(t).key in Keys(t)
    ensures Elements(t)[Leftmost(t).key] == Leftmost(t).item
    ensures forall x :: x in Keys(t) && x != Leftmost(t).key ==> cmp(Leftmost(t).key, x) < 0
  {
    BstNode(cmp, t);
    if t.left == Nil {
      forall x | x in Keys(t) && x != t.key
        ensures cmp(t.key, x) < 0
      {
        assert x in Keys(t.right);
        assert cmp(x, t.key) > 0;
      }
    } else {
      LeftmostIsMinimum(cmp, t.left);
      var m := Leftmost(t.left).key;
      assert cmp(m, t.key) < 0;
      forall x | x in Keys(t) && x != m
        ensures cmp(m, x) < 0
      {
        if x in Keys(t.right) {
          assert cmp(x, t.key) > 0;
          assert cmp(t.key, x) < 0;
        }
      }
    }
  }

  /**
   `encontrarMenor` (src/ABB.java:278-283, identical in src/AVL.java:175-180):
   follows left children down to a node that has none.
   */
  method EncontrarMenor<K(!new), V>(ghost cmp: (K, K) -> int, raizArvore: No<K, V>) returns (m: No<K, V>)
    requires raizArvore.Node?
    ensures m == Leftmost(raizArvore)
    ensures m.Node? && m.left == Nil && m.key in Keys(raizArvore)
    ensures TotalOrder(cmp) && IsBST(cmp, raizArvore) ==>
      forall x :: x in Keys(raizArvore) && x != m.key ==> cmp(m.key, x) < 0
  {
    m := raizArvore;
    while m.left != Nil
      invariant m.Node? && Leftmost(m) == Leftmost(raizArvore)
      decreases m
    {
      m := m.left;
    }
    LeftmostKey(raizArvore);
    if TotalOrder(cmp) && IsBST(cmp, raizArvore) {
      LeftmostIsMinimum(cmp, raizArvore);
    }
  }

  /** The leftmost node belongs to the tree, whatever its order. */
  lemma {:induction false} LeftmostKey<K, V>(t: No<K, V>)
    requires t.Node?
    ensures Leftmost(t).key in Keys(t)
  {
    if t.left != Nil {
      LeftmostKey(t.left);
    }
  }

  /** The keys listed by an in-order walk of a search tree strictly increase. */
  lemma {:induction false} InOrderSorted<K(!new), V>(cmp: (K, K) -> int, t: No<K, V>)
    requires TotalOrder(cmp) && IsBST(cmp, t)
    ensures Increasing(cmp, InOrder(t))
  {
    match t
    case Nil =>
    case Node(l, k, v, r, _) =>
      InOrderSorted(cmp, l);
      InOrderSorted(cmp, r);
      InOrderKeys(l);
      InOrderKeys(r);
      assert forall i :: 0 <= i < |InOrder(r)| ==> InOrder(r)[i].0 in Keys(r);
      forall i | 0 <= i < |InOrder(r)|
        ensures cmp(k, InOrder(r)[i].0) < 0
      {
        assert cmp(InOrder(r)[i].0, k) > 0;
      }
      JoinIncreasing(cmp, InOrder(l), (k, v), InOrder(r));
  }

  /** Keys of a sequence of pairs in strictly increasing order. */
  ghost predicate Increasing<K, V>(cmp: (K, K) -> int, s: seq<(K, V)>)
  {
    forall i, j :: 0 <= i < j < |s| ==> cmp(s[i].0, s[j].0) < 0
  }

  /** Two increasing runs separated by a pivot that lies between them form one run. */
  lemma JoinIncreasing<K(!new), V>(cmp: (K, K) -> int, a: seq<(K, V)>, p: (K, V), b: seq<(K, V)>)
    requires TotalOrder(cmp) && Increasing(cmp, a) && Increasing(cmp, b)
    requires forall i :: 0 <= i < |a| ==> cmp(a[i].0, p.0) < 0
    requires forall i :: 0 <= i < |b| ==> cmp(p.0, b[i].0) < 0
    ensures Increasing(cmp, a + [p] + b)
  {
    var s := a + [p] + b;
    var n := |a|;
    forall i, j | 0 <= i < j < |s|
      ensures cmp(s[i].0, s[j].0) < 0
    {
      if j < n {
        assert s[i] == a[i] && s[j] == a[j];
      } else if i > n {
        assert s[i] == b[i - n - 1] && s[j] == b[j - n - 1];
      } else if i == n {
        assert s[j] == b[j - n - 1];
      } else if j == n {
        assert s[i] == a[i];
      } else {
        assert s[i] == a[i] && s[j] == b[j - n - 1];
        assert cmp(a[i].0, p.0) < 0 && cmp(p.0, b[j - n - 1].0) < 0;
      }
    }
  }

  /** Every key listed by the in-order walk is a key of the tree. */
  lemma {:induction false} InOrderKeys<K, V>(t: No<K, V>)
    ensures forall i :: 0 <= i < |InOrder(t)| ==> InOrder(t)[i].0 in Keys(t)
    ensures |InOrder(t)| == Size(t)
  {
    match t
    case Nil =>
    case Node(l, k, v, r, _) =>
      InOrderKeys(l);
      InOrderKeys(r);
      var s := InOrder(t);
      var n := |InOrder(l)|;
      forall i | 0 <= i < |s|
        ensures s[i].0 in Keys(t)
      {
        if i < n {
          assert s[i] == InOrder(l)[i];
        } else if i > n {
          assert s[i] == InOrder(r)[i - n - 1];
        }
      }
  }

  /**
   On a search tree the `i`-th pair the in-order walk lists is a stored key
   with the item stored under it.
   */
  lemma {:induction false} InOrderItem<K(!new), V>(cmp: (K, K) -> int, t: No<K, V>, i: int)
    requires TotalOrder(cmp) && IsBST(cmp, t) && 0 <= i < |InOrder(t)|
    ensures InOrder(t)[i].0 in Keys(t) && Elements(t)[InOrder(t)[i].0] == InOrder(t)[i].1
  {
    match t
    case Node(l, key, item, r, _) =>
      BstNode(cmp, t);
      var a, b := InOrder(l), InOrder(r);
      var n := |a|;
      if i < n {
        InOrderItem(cmp, l, i);
        assert InOrder(t)[i] == a[i];
      } else if i == n {
        assert InOrder(t)[i] == (key, item);
      } else {
        InOrderItem(cmp, r, i - n - 1);
        assert InOrder(t)[i] == b[i - n - 1];
      }
  }

  /** Every key stored in the tree is listed by the in-order walk. */
  lemma {:induction false} InOrderListsKey<K, V>(t: No<K, V>, k: K)
    requires k in Keys(t)
    ensures exists i :: 0 <= i < |InOrder(t)| && InOrder(t)[i].0 == k
  {
    match t
    case Node(l, key, item, r, _) =>
      KeysOfNode(t);
      var a, b := InOrder(l), InOrder(r);
      var n := |a|;
      if k in Keys(l) {
        InOrderListsKey(l, k);
        var i :| 0 <= i < n && a[i].0 == k;
        assert InOrder(t)[i] == a[i];
      } else if k in Keys(r) {
        InOrderListsKey(r, k);
        var i :| 0 <= i < |b| && b[i].0 == k;
        assert InOrder(t)[n + 1 + i] == b[i];
      } else {
        assert k == key && InOrder(t)[n] == (key, item);
      }
  }

  /**
   On a search tree the in-order walk lists exactly the stored map: each
   listed pair is a key with the item stored under it, and every stored key
   is listed.
   */
  lemma InOrderIsMap<K(!new), V>(cmp: (K, K) -> int, t: No<K, V>)
    requires TotalOrder(cmp) && IsBST(cmp, t)
    ensures forall i :: 0 <= i < |InOrder(t)| ==>
      InOrder(t)[i].0 in Keys(t) && Elements(t)[InOrder(t)[i].0] == InOrder(t)[i].1
    ensures forall k :: k in Keys(t) ==> exists i :: 0 <= i < |InOrder(t)| && InOrder(t)[i].0 == k
  {
    forall i | 0 <= i < |InOrder(t)|
      ensures InOrder(t)[i].0 in Keys(t) && Elements(t)[InOrder(t)[i].0] == InOrder(t)[i].1
    {
      InOrderItem(cmp, t, i);
    }
    forall k | k in Keys(t)
      ensures exists i :: 0 <= i < |InOrder(t)| && InOrder(t)[i].0 == k
    {
      InOrderListsKey(t, k);
    }
  }

  /**
   `caminhamentoEmOrdem` lists every item in in-order position, each
   followed by a line break.
   */
  lemma {:induction false} InOrderTextLines<K, V>(t: No<K, V>, render: V -> string)
    ensures InOrderText(t, render) == Lines(InOrder(t), ItemLine(render))
  {
    match t
    case Nil =>
    case Node(l, k, v, r, _) =>
      InOrderTextLines(l, render);
      InOrderTextLines(r, render);
      LinesAppend(InOrder(l) + [(k, v)], InOrder(r), ItemLine(render));
      LinesSnoc(InOrder(l), (k, v), ItemLine(render));
  }

  /** On a search tree the node count is the number of distinct keys. */
  lemma {:induction false} SizeIsKeyCount<K(!new), V>(cmp: (K, K) -> int, t: No<K, V>)
    requires TotalOrder(cmp) && IsBST(cmp, t)
    ensures Size(t) == |Keys(t)|
  {
    match t
    case Nil =>
    case Node(l, k, v, r, _) =>
      BstNode(cmp, t);
      SizeIsKeyCount(cmp, l);
      SizeIsKeyCount(cmp, r);
      KeysOfNode(t);
      DisjointUnionSize(Keys(l), k, Keys(r));
  }

  lemma KeysOfNode<K, V>(t: No<K, V>)
    requires t.Node?
    ensures Keys(t) == Keys(t.left) + {t.key} + Keys(t.right)
  {
  }

  lemma DisjointUnionSize<K>(a: set<K>, k: K, b: set<K>)
    requires a !! b && k !in a && k !in b
    ensures |a + {k} + b| == |a| + 1 + |b|
  {
    assert (a + {k}) * b == {};
  }

  // ---------------------------------------------------------------------
  // The node rebuilt by the recursive insertion and removal of both trees,
  // before any rebalancing; `a` is the height cached in the rebuilt node.
  // ---------------------------------------------------------------------

  /** The new subtree root returned by the recursive `inserir` and whether it ran `tamanho++`. */
  datatype Inserted<K, V> = Inserted(tree: No<K, V>, grew: bool)

  /**
   What the recursive `remover(raizArvore, chave, itemRemovido)` produces:
   the new subtree root, the item stored in `itemRemovido[0]`, and how many
   times the call ran `tamanho--`.
   */
  datatype Removed<K, V> = Removed(tree: No<K, V>, item: V, decrements: nat)

  lemma InsertEqualCase<K(!new), V>(cmp: (K, K) -> int, t: No<K, V>, k: K, v: V, a: int)
    requires TotalOrder(cmp) && IsBST(cmp, t) && t.Node? && cmp(k, t.key) == 0
    ensures var n := Node(t.left, t.key, v, t.right, a);
      && IsBST(cmp, n)
      && Elements(n) == Elements(t)[k := v]
      && k in Keys(t)
  {
    BstNode(cmp, t);
    KeysOfNode(t);
    assert k == t.key;
    MapPutMid(Elements(t.left), t.key, t.item, Elements(t.right), v);
  }

  lemma MapPutMid<K, V>(el: map<K, V>, key: K, item: V, er: map<K, V>, v: V)
    requires key !in er
    ensures el + map[key := v] + er == (el + map[key := item] + er)[key := v]
  {
  }

  lemma InsertLeftCase<K(!new), V>(cmp: (K, K) -> int, t: No<K, V>, k: K, v: V, s: Inserted<K, V>, a: int)
    requires TotalOrder(cmp) && IsBST(cmp, t) && t.Node? && cmp(k, t.key) < 0
    requires IsBST(cmp, s.tree) && Elements(s.tree) == Elements(t.left)[k := v]
    requires (s.grew <==> k !in Keys(t.left)) && Size(s.tree) == Size(t.left) + if s.grew then 1 else 0
    ensures var n := Node(s.tree, t.key, t.item, t.right, a);
      && IsBST(cmp, n)
      && Elements(n) == Elements(t)[k := v]
      && (s.grew <==> k !in Keys(t))
      && Size(n) == Size(t) + if s.grew then 1 else 0
  {
    BstNode(cmp, t);
    KeysOfNode(t);
    assert k != t.key;
    assert k !in Keys(t.right);
    var n := Node(s.tree, t.key, t.item, t.right, a);
    assert Keys(s.tree) == Keys(t.left) + {k};
    MapPutLeft(Elements(t.left), t.key, t.item, Elements(t.right), k, v);
  }

  lemma InsertRightCase<K(!new), V>(cmp: (K, K) -> int, t: No<K, V>, k: K, v: V, s: Inserted<K, V>, a: int)
    requires TotalOrder(cmp) && IsBST(cmp, t) && t.Node? && cmp(k, t.key) > 0
    requires IsBST(cmp, s.tree) && Elements(s.tree) == Elements(t.right)[k := v]
    requires (s.grew <==> k !in Keys(t.right)) && Size(s.tree) == Size(t.right) + if s.grew then 1 else 0
    ensures var n := Node(t.left, t.key, t.item, s.tree, a);
      && IsBST(cmp, n)
      && Elements(n) == Elements(t)[k := v]
      && (s.grew <==> k !in Keys(t))
      && Size(n) == Size(t) + if s.grew then 1 else 0
  {
    BstNode(cmp, t);
    KeysOfNode(t);
    assert k != t.key by { assert cmp(t.key, t.key) == 0; }
    assert k !in Keys(t.left);
    var n := Node(t.left, t.key, t.item, s.tree, a);
    assert Keys(s.tree) == Keys(t.right) + {k};
    MapPutRight(Elements(t.left), t.key, t.item, Elements(t.right), k, v);
  }

  lemma MapPutLeft<K, V>(el: map<K, V>, key: K, item: V, er: map<K, V>, k: K, v: V)
    requires k != key && k !in er
    ensures el[k := v] + map[key := item] + er == (el + map[key := item] + er)[k := v]
  {
  }

  lemma MapPutRight<K, V>(el: map<K, V>, key: K, item: V, er: map<K, V>, k: K, v: V)
    ensures el + map[key := item] + er[k := v] == (el + map[key := item] + er)[k := v]
  {
  }

  lemma {:induction false} SameShapeReflexive<K, V>(t: No<K, V>)
    ensures SameShape(t, t)
  {
    match t
    case Nil =>
    case Node(l, _, _, r, _) =>
      SameShapeReflexive(l);
      SameShapeReflexive(r);
  }

  /** Trees of the same shape have the same height. */
  lemma {:induction false} SameShapeHeight<K, V>(a: No<K, V>, b: No<K, V>)
    requires SameShape(a, b)
    ensures Height(a) == Height(b)
  {
    match (a, b)
    case (Nil, Nil) =>
    case (Node(al, _, _, ar, _), Node(bl, _, _, br, _)) =>
      SameShapeHeight(al, bl);
      SameShapeHeight(ar, br);
  }

  lemma {:induction false} SameShapeSameKeys<K, V>(a: No<K, V>, b: No<K, V>)
    requires SameShape(a, b)
    ensures Keys(a) == Keys(b)
  {
    match (a, b)
    case (Nil, Nil) =>
    case (Node(al, _, _, ar, _), Node(bl, _, _, br, _)) =>
      SameShapeSameKeys(al, bl);
      SameShapeSameKeys(ar, br);
      KeysOfNode(a);
      KeysOfNode(b);
  }

  /** `s` is what removing the present key `k` from `t` should leave: the key's item and the rest of the map, still ordered, one node fewer. */
  ghost predicate RemovedFrom<K(!new), V>(cmp: (K, K) -> int, t: No<K, V>, k: K, s: Removed<K, V>)
  {
    && k in Keys(t)
    && IsBST(cmp, s.tree)
    && s.item == Elements(t)[k]
    && Elements(s.tree) == Elements(t) - {k}
    && Size(s.tree) == Size(t) - 1
  }

  lemma RemoveLeftCase<K(!new), V>(cmp: (K, K) -> int, t: No<K, V>, k: K, s: Result<Removed<K, V>>, a: int)
    requires TotalOrder(cmp) && IsBST(cmp, t) && t.Node? && cmp(k, t.key) < 0
    requires (s.Success? <==> k in Keys(t.left)) && (s.Failure? ==> s.error == NoSuchElement)
    requires s.Success? ==> RemovedFrom(cmp, t.left, k, s.value)
    ensures s.Success? <==> k in Keys(t)
    ensures s.Success? ==>
      RemovedFrom(cmp, t, k, Removed(Node(s.value.tree, t.key, t.item, t.right, a), s.value.item, s.value.decrements))
  {
    BstNode(cmp, t);
    KeysOfNode(t);
    assert k != t.key && k !in Keys(t.right);
    if s.Success? {
      var n := Node(s.value.tree, t.key, t.item, t.right, a);
      assert Keys(s.value.tree) <= Keys(t.left);
      SmallerChildKeepsOrder(cmp, t, n);
      MapRemoveLeft(Elements(t.left), t.key, t.item, Elements(t.right), k);
    }
  }

  /** Replacing the children of a search-tree node by search trees over fewer keys keeps the order. */
  lemma SmallerChildKeepsOrder<K(!new), V>(cmp: (K, K) -> int, t: No<K, V>, n: No<K, V>)
    requires IsBST(cmp, t) && t.Node? && n.Node? && n.key == t.key
    requires IsBST(cmp, n.left) && Keys(n.left) <= Keys(t.left)
    requires IsBST(cmp, n.right) && Keys(n.right) <= Keys(t.right)
    ensures IsBST(cmp, n)
  {
  }

  lemma RemoveRightCase<K(!new), V>(cmp: (K, K) -> int, t: No<K, V>, k: K, s: Result<Removed<K, V>>, a: int)
    requires TotalOrder(cmp) && IsBST(cmp, t) && t.Node? && cmp(k, t.key) > 0
    requires (s.Success? <==> k in Keys(t.right)) && (s.Failure? ==> s.error == NoSuchElement)
    requires s.Success? ==> RemovedFrom(cmp, t.right, k, s.value)
    ensures s.Success? <==> k in Keys(t)
    ensures s.Success? ==>
      RemovedFrom(cmp, t, k, Removed(Node(t.left, t.key, t.item, s.value.tree, a), s.value.item, s.value.decrements))
  {
    BstNode(cmp, t);
    KeysOfNode(t);
    assert k != t.key by { assert cmp(t.key, t.key) == 0; }
    assert k !in Keys(t.left);
    if s.Success? {
      var n := Node(t.left, t.key, t.item, s.value.tree, a);
      assert Keys(s.value.tree) <= Keys(t.right);
      SmallerChildKeepsOrder(cmp, t, n);
      MapRemoveRight(Elements(t.left), t.key, t.item, Elements(t.right), k);
    }
  }

  lemma RemoveOneChildCase<K(!new), V>(cmp: (K, K) -> int, t: No<K, V>, k: K)
    requires TotalOrder(cmp) && IsBST(cmp, t) && t.Node? && cmp(k, t.key) == 0
    requires t.left.Nil? || t.right.Nil?
    ensures RemovedFrom(cmp, t, k, Removed(if t.left.Nil? then t.right else t.left, t.item, 1))
  {
    assert k == t.key;
    BstNode(cmp, t);
    KeysOfNode(t);
    if t.left.Nil? {
      assert Elements(t) == map[] + map[k := t.item] + Elements(t.right);
      MapDropFirst(k, t.item, Elements(t.right));
    } else {
      assert Elements(t) == Elements(t.left) + map[k := t.item] + map[];
      MapDropLast(Elements(t.left), k, t.item);
    }
  }

  lemma MapDropFirst<K, V>(k: K, v: V, er: map<K, V>)
    requires k !in er
    ensures map[] + map[k := v] + er - {k} == er
  {
  }

  lemma MapDropLast<K, V>(el: map<K, V>, k: K, v: V)
    requires k !in el
    ensures el + map[k := v] + map[] - {k} == el
  {
  }

  /** The two-children case of `remover`, where the successor's key and item move up. */
  lemma RemoveSuccessor<K(!new), V>(cmp: (K, K) -> int, t: No<K, V>, k: K, s: Removed<K, V>, a: int)
    requires TotalOrder(cmp) && IsBST(cmp, t) && t.Node? && t.left.Node? && t.right.Node? && cmp(k, t.key) == 0
    requires RemovedFrom(cmp, t.right, Leftmost(t.right).key, s)
    requires Elements(t.right)[Leftmost(t.right).key] == Leftmost(t.right).item
    requires forall x :: x in Keys(t.right) && x != Leftmost(t.right).key ==> cmp(Leftmost(t.right).key, x) < 0
    ensures RemovedFrom(cmp, t, k, Removed(Node(t.left, Leftmost(t.right).key, Leftmost(t.right).item, s.tree, a), t.item, 1 + s.decrements))
  {
    assert k == t.key;
    BstNode(cmp, t);
    var l, r := t.left, t.right;
    var m := Leftmost(r);
    var n := Node(l, m.key, m.item, s.tree, a);
    KeysOfNode(n);
    KeysOfNode(t);
    assert cmp(t.key, m.key) < 0 by { assert cmp(m.key, t.key) > 0; }
    forall x | x in Keys(l)
      ensures cmp(x, m.key) < 0
    {
      assert cmp(x, t.key) < 0;
    }
    forall x | x in Keys(s.tree)
      ensures cmp(x, m.key) > 0
    {
      assert x in Keys(r) && x != m.key;
      assert cmp(m.key, x) < 0;
    }
    assert IsBST(cmp, n);
    SuccessorMaps(Elements(l), t.key, t.item, Elements(r), m.key, m.item);
  }

  lemma SuccessorMaps<K, V>(el: map<K, V>, key: K, item: V, er: map<K, V>, mk: K, mv: V)
    requires el.Keys !! er.Keys && key !in el && key !in er
    requires mk in er && er[mk] == mv
    ensures el + map[mk := mv] + (er - {mk}) == (el + map[key := item] + er) - {key}
  {
  }

  lemma MapRemoveLeft<K, V>(el: map<K, V>, key: K, item: V, er: map<K, V>, k: K)
    requires k != key && k !in er
    ensures (el - {k}) + map[key := item] + er == (el + map[key := item] + er) - {k}
  {
  }

  lemma MapRemoveRight<K, V>(el: map<K, V>, key: K, item: V, er: map<K, V>, k: K)
    requires k != key && k !in el
    ensures el + map[key := item] + (er - {k}) == (el + map[key := item] + er) - {k}
  {
  }

}
