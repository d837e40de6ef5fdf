/**
 The height-balanced search tree map of src/AVL.java.

 As in the unbalanced tree, the recursive helpers that take a subtree and
 return its new root are functions over node values, and the class AVL keeps
 the fields the Java class updates. A node caches its height in `altura`;
 an empty subtree has height 0 and a leaf height 1.
 */
module ArvoreAVL {
  import opened Comum
  import opened Nos
  import ArvoreABB

  // ---------------------------------------------------------------------
  // Cached heights and the balance condition
  // ---------------------------------------------------------------------

  /** The height a subtree reports: 0 when empty, otherwise the cached `altura`. */
  function Alt<K, V>(t: No<K, V>): int
  {
    if t.Nil? then 0 else t.altura
  }

  /** `setAltura()`: one more than the larger reported height of the two children. */
  function SetAltura<K, V>(n: No<K, V>): No<K, V>
    requires n.Node?
  {
    n.(altura := 1 + Max(Alt(n.left), Alt(n.right)))
  }

  /** `getFatorBalanceamento()`: left reported height minus right reported height. */
  function Fator<K, V>(n: No<K, V>): int
    requires n.Node?
  {
    Alt(n.left) - Alt(n.right)
  }

  /** Every node caches 1 + the larger height of its children. */
  ghost predicate HeightsCached<K, V>(t: No<K, V>)
  {
    match t
    case Nil => true
    case Node(l, _, _, r, a) => a == 1 + Max(Alt(l), Alt(r)) && HeightsCached(l) && HeightsCached(r)
  }

  /** At every node the heights of the two subtrees differ by at most one. */
  ghost predicate Balanced<K, V>(t: No<K, V>)
  {
    match t
    case Nil => true
    case Node(l, _, _, r, _) => -1 <= Height(l) - Height(r) <= 1 && Balanced(l) && Balanced(r)
  }

  /** The invariant of an AVL tree: search-tree order, correct cached heights and balance. */
  ghost predicate IsAvl<K(!new), V>(cmp: (K, K) -> int, t: No<K, V>)
  {
    IsBST(cmp, t) && HeightsCached(t) && Balanced(t)
  }

  /** Where heights are cached correctly, the reported height is the real one. */
  lemma {:induction false} CachedHeight<K, V>(t: No<K, V>)
    requires HeightsCached(t)
    ensures Alt(t) == Height(t)
  {
    match t
    case Nil =>
    case Node(l, _, _, r, _) =>
      CachedHeight(l);
      CachedHeight(r);
  }

  // ---------------------------------------------------------------------
  // Rotations
  // ---------------------------------------------------------------------

  /**
   `rotacionarDireita(no)`: the left child becomes the subtree root, its
   former right subtree becomes the left subtree of the old root, and the
   heights of the old root and then of the new root are recomputed.
   */
  function RotacionarDireita<K, V>(no: No<K, V>): (r: No<K, V>)
    requires no.Node? && no.left.Node?
    ensures r.Node?
    ensures HeightsCached(no.left) && HeightsCached(no.right) ==> HeightsCached(r)
  {
    var novaRaiz := no.left;
    var temp := novaRaiz.right;
    var antiga := SetAltura(no.(left := temp));
    SetAltura(novaRaiz.(right := antiga))
  }

  /** `rotacionarEsquerda(no)`: the mirror image of `rotacionarDireita`. */
  function RotacionarEsquerda<K, V>(no: No<K, V>): (r: No<K, V>)
    requires no.Node? && no.right.Node?
    ensures r.Node?
    ensures HeightsCached(no.left) && HeightsCached(no.right) ==> HeightsCached(r)
  {
    var novaRaiz := no.right;
    var temp := novaRaiz.left;
    var antiga := SetAltura(no.(right := temp));
    SetAltura(novaRaiz.(left := antiga))
  }

  /**
   A right rotation keeps the in-order sequence, hence the map and the node
   count, and keeps the search-tree order.
   */
  lemma RotacionarDireitaCorrect<K(!new), V>(cmp: (K, K) -> int, no: No<K, V>)
    requires no.Node? && no.left.Node?
    ensures InOrder(RotacionarDireita(no)) == InOrder(no)
    ensures Elements(RotacionarDireita(no)) == Elements(no)
    ensures Size(RotacionarDireita(no)) == Size(no)
    ensures TotalOrder(cmp) && IsBST(cmp, no) ==> IsBST(cmp, RotacionarDireita(no))
  {
    var p := no.left;
    var r := RotacionarDireita(no);
    assert r == Node(p.left, p.key, p.item, r.right, r.altura);
    assert r.right == Node(p.right, no.key, no.item, no.right, r.right.altura);
    RotationSameContents(p.left, p.key, p.item, p.right, no.key, no.item, no.right, r.right.altura, r.altura, p.altura, no.altura);
    if TotalOrder(cmp) && IsBST(cmp, no) {
      RotationRightOrder(cmp, p.left, p.key, p.item, p.right, no.key, no.item, no.right, r.right.altura, r.altura, p.altura, no.altura);
    }
  }

  /** A left rotation keeps the in-order sequence, the map, the node count and the search-tree order. */
  lemma RotacionarEsquerdaCorrect<K(!new), V>(cmp: (K, K) -> int, no: No<K, V>)
    requires no.Node? && no.right.Node?
    ensures InOrder(RotacionarEsquerda(no)) == InOrder(no)
    ensures Elements(RotacionarEsquerda(no)) == Elements(no)
    ensures Size(RotacionarEsquerda(no)) == Size(no)
    ensures TotalOrder(cmp) && IsBST(cmp, no) ==> IsBST(cmp, RotacionarEsquerda(no))
  {
    var q := no.right;
    var r := RotacionarEsquerda(no);
    assert r == Node(r.left, q.key, q.item, q.right, r.altura);
    assert r.left == Node(no.left, no.key, no.item, q.left, r.left.altura);
    RotationSameContents(no.left, no.key, no.item, q.left, q.key, q.item, q.right, q.altura, no.altura, r.left.altura, r.altura);
    if TotalOrder(cmp) && IsBST(cmp, no) {
      RotationLeftOrder(cmp, no.left, no.key, no.item, q.left, q.key, q.item, q.right, q.altura, no.altura, r.left.altura, r.altura);
    }
  }

  /**
   The two shapes a rotation switches between, `a y (b x c)` and
   `(a y b) x c`, list the same pairs in the same order.
   */
  lemma RotationSameContents<K, V>(a: No<K, V>, y: K, yv: V, b: No<K, V>, x: K, xv: V, c: No<K, V>,
                                   h1: int, h2: int, h3: int, h4: int)
    ensures var up := Node(a, y, yv, Node(b, x, xv, c, h1), h2);
      var down := Node(Node(a, y, yv, b, h3), x, xv, c, h4);
      && InOrder(up) == InOrder(down)
      && Elements(up) == Elements(down)
      && Size(up) == Size(down)
  {
    var ay := Elements(a) + map[y := yv];
    MapAssoc(ay, Elements(b) + map[x := xv], Elements(c));
    MapAssoc(ay, Elements(b), map[x := xv]);
  }

  /** Lifting the left child (`(a y b) x c` to `a y (b x c)`) keeps the search-tree order. */
  lemma RotationRightOrder<K(!new), V>(cmp: (K, K) -> int, a: No<K, V>, y: K, yv: V, b: No<K, V>, x: K, xv: V, c: No<K, V>,
                                       h1: int, h2: int, h3: int, h4: int)
    requires TotalOrder(cmp) && IsBST(cmp, Node(Node(a, y, yv, b, h3), x, xv, c, h4))
    ensures IsBST(cmp, Node(a, y, yv, Node(b, x, xv, c, h1), h2))
  {
    var low := Node(a, y, yv, b, h3);
    var inner := Node(b, x, xv, c, h1);
    KeysOfNode(low);
    KeysOfNode(inner);
    assert cmp(y, x) < 0;
    assert forall z :: z in Keys(b) ==> cmp(z, x) < 0;
    assert IsBST(cmp, inner);
    forall z | z in Keys(inner)
      ensures cmp(z, y) > 0
    {
      if z in Keys(c) {
        assert cmp(x, z) < 0;
        assert cmp(y, z) < 0;
      } else if z == x {
        assert cmp(y, z) < 0;
      }
    }
  }

  /** Lifting the right child (`a y (b x c)` to `(a y b) x c`) keeps the search-tree order. */
  lemma RotationLeftOrder<K(!new), V>(cmp: (K, K) -> int, a: No<K, V>, y: K, yv: V, b: No<K, V>, x: K, xv: V, c: No<K, V>,
                                      h1: int, h2: int, h3: int, h4: int)
    requires TotalOrder(cmp) && IsBST(cmp, Node(a, y, yv, Node(b, x, xv, c, h1), h2))
    ensures IsBST(cmp, Node(Node(a, y, yv, b, h3), x, xv, c, h4))
  {
    var low := Node(a, y, yv, b, h3);
    var inner := Node(b, x, xv, c, h1);
    KeysOfNode(low);
    KeysOfNode(inner);
    assert cmp(x, y) > 0 && cmp(y, x) < 0;
    assert forall z :: z in Keys(b) ==> cmp(z, y) > 0;
    assert IsBST(cmp, low);
    forall z | z in Keys(low)
      ensures cmp(z, x) < 0
    {
      if z in Keys(a) {
        assert cmp(z, y) < 0;
      } else if z == y {
      } else {
        assert z in Keys(b);
      }
    }
  }

  // ---------------------------------------------------------------------
  // Rebalancing
  // ---------------------------------------------------------------------

  /**
   `balancear(raizArvore)`: a node whose left side is more than one level
   taller is rotated right, after its left child is rotated left when that
   child leans right; the mirror image for a right side more than one level
   taller; any other node is returned as it is.
   */
  function Balancear<K, V>(n: No<K, V>): (r: No<K, V>)
    requires n.Node? && HeightsCached(n)
    ensures r.Node? && HeightsCached(r)
  {
    CachedHeight(n.left);
    CachedHeight(n.right);
    if Fator(n) > 1 then
      var l := n.left;
      CachedHeight(l.left);
      if Fator(l) < 0 then RotacionarDireita(n.(left := RotacionarEsquerda(l)))
      else RotacionarDireita(n)
    else if Fator(n) < -1 then
      var r := n.right;
      CachedHeight(r.right);
      if Fator(r) > 0 then RotacionarEsquerda(n.(right := RotacionarDireita(r)))
      else RotacionarEsquerda(n)
    else
      n
  }

  /**
   Applied to a node whose subtrees are balanced and differ in height by at
   most two, `balancear` returns a balanced subtree with the same pairs in
   the same order and the same search-tree order; a node that is already
   balanced is returned unchanged, and a rotation lowers the subtree by at
   most one level.
   */
  lemma BalancearCorrect<K(!new), V>(cmp: (K, K) -> int, n: No<K, V>)
    requires n.Node? && HeightsCached(n) && Balanced(n.left) && Balanced(n.right)
    requires -2 <= Height(n.left) - Height(n.right) <= 2
    ensures Balanced(Balancear(n))
    ensures InOrder(Balancear(n)) == InOrder(n)
    ensures Elements(Balancear(n)) == Elements(n)
    ensures Size(Balancear(n)) == Size(n)
    ensures TotalOrder(cmp) && IsBST(cmp, n) ==> IsBST(cmp, Balancear(n))
    ensures -1 <= Height(n.left) - Height(n.right) <= 1 ==> Balancear(n) == n
    ensures Height(n) - 1 <= Height(Balancear(n)) <= Height(n)
  {
    CachedHeight(n.left);
    CachedHeight(n.right);
    if Height(n.left) - Height(n.right) == 2 {
      LeftHeavy(cmp, n);
    } else if Height(n.left) - Height(n.right) == -2 {
      RightHeavy(cmp, n);
    }
  }

  lemma LeftHeavy<K(!new), V>(cmp: (K, K) -> int, n: No<K, V>)
    requires n.Node? && HeightsCached(n) && Balanced(n.left) && Balanced(n.right)
    requires Height(n.left) == Height(n.right) + 2
    ensures Balanced(Balancear(n))
    ensures InOrder(Balancear(n)) == InOrder(n)
    ensures Elements(Balancear(n)) == Elements(n)
    ensures Size(Balancear(n)) == Size(n)
    ensures TotalOrder(cmp) && IsBST(cmp, n) ==> IsBST(cmp, Balancear(n))
    ensures Height(n) - 1 <= Height(Balancear(n)) <= Height(n)
  {
    var l := n.left;
    CachedHeight(l);
    CachedHeight(n.right);
    CachedHeight(l.left);
    CachedHeight(l.right);
    if Height(l.left) >= Height(l.right) {
      assert Balancear(n) == RotacionarDireita(n);
      SingleRightBalanced(n);
      RotacionarDireitaCorrect(cmp, n);
    } else {
      assert Balancear(n) == RotacionarDireita(n.(left := RotacionarEsquerda(l)));
      DoubleRightBalanced(n);
      DoubleRightContents(cmp, n);
    }
  }

  lemma SingleRightBalanced<K, V>(n: No<K, V>)
    requires n.Node? && n.left.Node? && Balanced(n.left) && Balanced(n.right)
    requires Height(n.left) == Height(n.right) + 2 && Height(n.left.left) >= Height(n.left.right)
    ensures Balanced(RotacionarDireita(n))
    ensures Height(n) - 1 <= Height(RotacionarDireita(n)) <= Height(n)
  {
    var l, c := n.left, n.right;
    var r := RotacionarDireita(n);
    assert r.left == l.left;
    assert r.right == Node(l.right, n.key, n.item, c, r.right.altura);
    assert Height(l.left) == Height(c) + 1;
  }

  lemma DoubleRightBalanced<K, V>(n: No<K, V>)
    requires n.Node? && n.left.Node? && Balanced(n.left) && Balanced(n.right)
    requires Height(n.left) == Height(n.right) + 2 && Height(n.left.left) < Height(n.left.right)
    ensures n.left.right.Node?
    ensures Balanced(RotacionarDireita(n.(left := RotacionarEsquerda(n.left))))
    ensures Height(RotacionarDireita(n.(left := RotacionarEsquerda(n.left)))) == Height(n) - 1
  {
    var l, c := n.left, n.right;
    var b := l.right;
    var r := RotacionarDireita(n.(left := RotacionarEsquerda(l)));
    assert r.key == b.key;
    assert r.left == Node(l.left, l.key, l.item, b.left, r.left.altura);
    assert r.right == Node(b.right, n.key, n.item, c, r.right.altura);
    assert Height(b) == Height(c) + 1 && Height(l.left) == Height(c);
  }

  lemma DoubleRightContents<K(!new), V>(cmp: (K, K) -> int, n: No<K, V>)
    requires n.Node? && n.left.Node? && n.left.right.Node?
    ensures var r := RotacionarDireita(n.(left := RotacionarEsquerda(n.left)));
      && InOrder(r) == InOrder(n)
      && Elements(r) == Elements(n)
      && Size(r) == Size(n)
      && (TotalOrder(cmp) && IsBST(cmp, n) ==> IsBST(cmp, r))
  {
    RotacionarEsquerdaCorrect(cmp, n.left);
    ReplaceChild(cmp, n, n.(left := RotacionarEsquerda(n.left)));
    RotacionarDireitaCorrect(cmp, n.(left := RotacionarEsquerda(n.left)));
  }

  lemma RightHeavy<K(!new), V>(cmp: (K, K) -> int, n: No<K, V>)
    requires n.Node? && HeightsCached(n) && Balanced(n.left) && Balanced(n.right)
    requires Height(n.right) == Height(n.left) + 2
    ensures Balanced(Balancear(n))
    ensures InOrder(Balancear(n)) == InOrder(n)
    ensures Elements(Balancear(n)) == Elements(n)
    ensures Size(Balancear(n)) == Size(n)
    ensures TotalOrder(cmp) && IsBST(cmp, n) ==> IsBST(cmp, Balancear(n))
    ensures Height(n) - 1 <= Height(Balancear(n)) <= Height(n)
  {
    var r0 := n.right;
    CachedHeight(r0);
    CachedHeight(n.left);
    CachedHeight(r0.left);
    CachedHeight(r0.right);
    if Height(r0.right) >= Height(r0.left) {
      assert Balancear(n) == RotacionarEsquerda(n);
      SingleLeftBalanced(n);
      RotacionarEsquerdaCorrect(cmp, n);
    } else {
      assert Balancear(n) == RotacionarEsquerda(n.(right := RotacionarDireita(r0)));
      DoubleLeftBalanced(n);
      DoubleLeftContents(cmp, n);
    }
  }

  lemma SingleLeftBalanced<K, V>(n: No<K, V>)
    requires n.Node? && n.right.Node? && Balanced(n.left) && Balanced(n.right)
    requires Height(n.right) == Height(n.left) + 2 && Height(n.right.right) >= Height(n.right.left)
    ensures Balanced(RotacionarEsquerda(n))
    ensures Height(n) - 1 <= Height(RotacionarEsquerda(n)) <= Height(n)
  {
    var a, r0 := n.left, n.right;
    var r := RotacionarEsquerda(n);
    assert r.right == r0.right;
    assert r.left == Node(a, n.key, n.item, r0.left, r.left.altura);
    assert Height(r0.right) == Height(a) + 1;
  }

  lemma DoubleLeftBalanced<K, V>(n: No<K, V>)
    requires n.Node? && n.right.Node? && Balanced(n.left) && Balanced(n.right)
    requires Height(n.right) == Height(n.left) + 2 && Height(n.right.right) < Height(n.right.left)
    ensures n.right.left.Node?
    ensures Balanced(RotacionarEsquerda(n.(right := RotacionarDireita(n.right))))
    ensures Height(RotacionarEsquerda(n.(right := RotacionarDireita(n.right)))) == Height(n) - 1
  {
    var a, r0 := n.left, n.right;
    var b := r0.left;
    var r := RotacionarEsquerda(n.(right := RotacionarDireita(r0)));
    assert r.key == b.key;
    assert r.left == Node(a, n.key, n.item, b.left, r.left.altura);
    assert r.right == Node(b.right, r0.key, r0.item, r0.right, r.right.altura);
    assert Height(b) == Height(a) + 1 && Height(r0.right) == Height(a);
  }

  lemma DoubleLeftContents<K(!new), V>(cmp: (K, K) -> int, n: No<K, V>)
    requires n.Node? && n.right.Node? && n.right.left.Node?
    ensures var r := RotacionarEsquerda(n.(right := RotacionarDireita(n.right)));
      && InOrder(r) == InOrder(n)
      && Elements(r) == Elements(n)
      && Size(r) == Size(n)
      && (TotalOrder(cmp) && IsBST(cmp, n) ==> IsBST(cmp, r))
  {
    RotacionarDireitaCorrect(cmp, n.right);
    ReplaceChild(cmp, n, n.(right := RotacionarDireita(n.right)));
    RotacionarEsquerdaCorrect(cmp, n.(right := RotacionarDireita(n.right)));
  }

  /**
   A node whose children are replaced by subtrees listing the same pairs in
   the same order lists the same pairs in the same order, and keeps the
   search-tree order when the new children keep it.
   */
  lemma ReplaceChild<K(!new), V>(cmp: (K, K) -> int, n: No<K, V>, n': No<K, V>)
    requires n.Node? && n'.Node? && n'.key == n.key && n'.item == n.item
    requires InOrder(n'.left) == InOrder(n.left) && Elements(n'.left) == Elements(n.left) && Size(n'.left) == Size(n.left)
    requires InOrder(n'.right) == InOrder(n.right) && Elements(n'.right) == Elements(n.right) && Size(n'.right) == Size(n.right)
    requires TotalOrder(cmp) && IsBST(cmp, n.left) ==> IsBST(cmp, n'.left)
    requires TotalOrder(cmp) && IsBST(cmp, n.right) ==> IsBST(cmp, n'.right)
    ensures InOrder(n') == InOrder(n) && Elements(n') == Elements(n) && Size(n') == Size(n)
    ensures TotalOrder(cmp) && IsBST(cmp, n) ==> IsBST(cmp, n')
  {
  }

  // ---------------------------------------------------------------------
  // Insertion and removal
  // ---------------------------------------------------------------------

  /**
   The recursive `inserir(raizArvore, chave, item)`: as in the unbalanced
   tree, except that a node whose subtree was relinked recomputes its height
   and is rebalanced; an equal key overwrites the item and returns at once.
   */
  function Insert<K, V>(cmp: (K, K) -> int, t: No<K, V>, k: K, v: V): (r: Inserted<K, V>)
    requires HeightsCached(t)
    ensures HeightsCached(r.tree)
  {
    match t
    case Nil => Inserted(Folha(k, v), true)
    case Node(l, key, item, rt, a) =>
      var c := cmp(k, key);
      if c < 0 then
        var s := Insert(cmp, l, k, v);
        Inserted(Balancear(SetAltura(Node(s.tree, key, item, rt, a))), s.grew)
      else if c > 0 then
        var s := Insert(cmp, rt, k, v);
        Inserted(Balancear(SetAltura(Node(l, key, item, s.tree, a))), s.grew)
      else
        Inserted(Node(l, key, v, rt, a), false)
  }

  /**
   The recursive `remover(raizArvore, chave, itemRemovido)`: as in the
   unbalanced tree (successor copied up and removed from the right subtree,
   `tamanho--` counted at the match and again for the successor), except
   that a node that keeps its place recomputes its height and is rebalanced.
   */
  function Remove<K, V>(cmp: (K, K) -> int, t: No<K, V>, k: K): (r: Result<Removed<K, V>>)
    requires HeightsCached(t)
    ensures r.Success? ==> HeightsCached(r.value.tree)
  {
    match t
    case Nil => Failure(NoSuchElement)
    case Node(l, key, item, rt, a) =>
      var c := cmp(k, key);
      if c < 0 then
        match Remove(cmp, l, k)
        case Failure(e) => Failure(e)
        case Success(s) => Success(Removed(Balancear(SetAltura(Node(s.tree, key, item, rt, a))), s.item, s.decrements))
      else if c > 0 then
        match Remove(cmp, rt, k)
        case Failure(e) => Failure(e)
        case Success(s) => Success(Removed(Balancear(SetAltura(Node(l, key, item, s.tree, a))), s.item, s.decrements))
      else if l.Nil? then
        Success(Removed(rt, item, 1))
      else if rt.Nil? then
        Success(Removed(l, item, 1))
      else
        var m := Leftmost(rt);
        match Remove(cmp, rt, m.key)
        case Failure(e) => Failure(e)
        case Success(s) => Success(Removed(Balancear(SetAltura(Node(l, m.key, m.item, s.tree, a))), item, 1 + s.decrements))
  }

  /**
   What inserting `k` with item `v` into the AVL tree `t` must produce: an
   AVL tree mapping `k` to `v` and keeping every other pair, one node larger
   exactly when the key was absent, at most one level taller.
   */
  ghost predicate AvlInserted<K(!new), V>(cmp: (K, K) -> int, t: No<K, V>, k: K, v: V, s: Inserted<K, V>)
  {
    && IsAvl(cmp, s.tree)
    && Elements(s.tree) == Elements(t)[k := v]
    && (s.grew <==> k !in Keys(t))
    && Size(s.tree) == Size(t) + (if s.grew then 1 else 0)
    && Height(t) <= Height(s.tree) <= Height(t) + 1
  }

  /**
   `inserir` keeps the AVL invariant, maps the key to the new item and
   leaves every other pair alone, grows the tree by one node exactly when
   the key was absent, and raises its height by at most one.
   */
  lemma {:induction false} InsertCorrect<K(!new), V>(cmp: (K, K) -> int, t: No<K, V>, k: K, v: V)
    requires TotalOrder(cmp) && IsAvl(cmp, t)
    ensures AvlInserted(cmp, t, k, v, Insert(cmp, t, k, v))
  {
    match t
    case Nil =>
    case Node(l, key, item, rt, a) =>
      var c := cmp(k, key);
      if c < 0 {
        InsertCorrect(cmp, l, k, v);
        InsertStepLeft(cmp, t, k, v, Insert(cmp, l, k, v));
      } else if c > 0 {
        InsertCorrect(cmp, rt, k, v);
        InsertStepRight(cmp, t, k, v, Insert(cmp, rt, k, v));
      } else {
        InsertEqualCase(cmp, t, k, v, a);
      }
  }

  /** The way back from an insertion into the left subtree: height recomputed, then `balancear`. */
  lemma InsertStepLeft<K(!new), V>(cmp: (K, K) -> int, t: No<K, V>, k: K, v: V, s: Inserted<K, V>)
    requires TotalOrder(cmp) && IsAvl(cmp, t) && t.Node? && cmp(k, t.key) < 0
    requires AvlInserted(cmp, t.left, k, v, s)
    ensures AvlInserted(cmp, t, k, v, Inserted(Balancear(SetAltura(Node(s.tree, t.key, t.item, t.right, t.altura))), s.grew))
  {
    var n := SetAltura(Node(s.tree, t.key, t.item, t.right, t.altura));
    assert n == Node(s.tree, t.key, t.item, t.right, n.altura);
    InsertLeftCase(cmp, t, k, v, s, n.altura);
    CachedHeight(s.tree);
    CachedHeight(t.right);
    RebalanceInserted(cmp, t, k, v, Inserted(n, s.grew));
  }

  /** The way back from an insertion into the right subtree. */
  lemma InsertStepRight<K(!new), V>(cmp: (K, K) -> int, t: No<K, V>, k: K, v: V, s: Inserted<K, V>)
    requires TotalOrder(cmp) && IsAvl(cmp, t) && t.Node? && cmp(k, t.key) > 0
    requires AvlInserted(cmp, t.right, k, v, s)
    ensures AvlInserted(cmp, t, k, v, Inserted(Balancear(SetAltura(Node(t.left, t.key, t.item, s.tree, t.altura))), s.grew))
  {
    var n := SetAltura(Node(t.left, t.key, t.item, s.tree, t.altura));
    assert n == Node(t.left, t.key, t.item, s.tree, n.altura);
    InsertRightCase(cmp, t, k, v, s, n.altura);
    CachedHeight(s.tree);
    CachedHeight(t.left);
    RebalanceInserted(cmp, t, k, v, Inserted(n, s.grew));
  }

  /**
   A node rebuilt on the way back from an insertion, one of whose subtrees
   may have gained a level, is turned by `balancear` into an AVL tree with
   the same contents, at most one level taller than the original subtree.
   */
  lemma RebalanceInserted<K(!new), V>(cmp: (K, K) -> int, t: No<K, V>, k: K, v: V, s: Inserted<K, V>)
    requires TotalOrder(cmp) && IsAvl(cmp, t) && s.tree.Node?
    requires IsBST(cmp, s.tree) && Elements(s.tree) == Elements(t)[k := v]
    requires (s.grew <==> k !in Keys(t)) && Size(s.tree) == Size(t) + (if s.grew then 1 else 0)
    requires HeightsCached(s.tree) && Balanced(s.tree.left) && Balanced(s.tree.right)
    requires -2 <= Height(s.tree.left) - Height(s.tree.right) <= 2
    requires Height(t) <= Height(s.tree) <= Height(t) + 1
    requires Height(s.tree.left) - Height(s.tree.right) in {-2, 2} ==> Height(s.tree) == Height(t) + 1
    ensures AvlInserted(cmp, t, k, v, Inserted(Balancear(s.tree), s.grew))
  {
    BalancearCorrect(cmp, s.tree);
  }

  /**
   Inserting a key already stored only replaces that node's item: on the
   way back no height changes and no rotation happens, so the balanced
   insertion does exactly what the unbalanced one does.
   */
  lemma {:induction false} InsertExistingInPlace<K(!new), V>(cmp: (K, K) -> int, t: No<K, V>, k: K, v: V)
    requires TotalOrder(cmp) && IsAvl(cmp, t) && k in Keys(t)
    ensures Insert(cmp, t, k, v) == ArvoreABB.Insert(cmp, t, k, v)
  {
    BstNode(cmp, t);
    KeysOfNode(t);
    var c := cmp(k, t.key);
    if c < 0 {
      assert k != t.key && k !in Keys(t.right);
      InsertExistingInPlace(cmp, t.left, k, v);
      ArvoreABB.InsertExistingKeepsShape(cmp, t.left, k, v);
      UnchangedLeftHeight(t, Insert(cmp, t.left, k, v).tree);
    } else if c > 0 {
      assert k != t.key && k !in Keys(t.left);
      InsertExistingInPlace(cmp, t.right, k, v);
      ArvoreABB.InsertExistingKeepsShape(cmp, t.right, k, v);
      UnchangedRightHeight(t, Insert(cmp, t.right, k, v).tree);
    }
  }

  /** A left subtree replaced by one of the same shape needs no new height and no rotation. */
  lemma UnchangedLeftHeight<K, V>(t: No<K, V>, s: No<K, V>)
    requires t.Node? && HeightsCached(t) && Balanced(t) && HeightsCached(s) && SameShape(s, t.left)
    ensures Balancear(SetAltura(Node(s, t.key, t.item, t.right, t.altura))) == Node(s, t.key, t.item, t.right, t.altura)
  {
    SameShapeHeight(s, t.left);
    CachedHeight(s);
    CachedHeight(t.left);
    CachedHeight(t.right);
    assert SetAltura(Node(s, t.key, t.item, t.right, t.altura)) == Node(s, t.key, t.item, t.right, t.altura);
  }

  /** A right subtree replaced by one of the same shape needs no new height and no rotation. */
  lemma UnchangedRightHeight<K, V>(t: No<K, V>, s: No<K, V>)
    requires t.Node? && HeightsCached(t) && Balanced(t) && HeightsCached(s) && SameShape(s, t.right)
    ensures Balancear(SetAltura(Node(t.left, t.key, t.item, s, t.altura))) == Node(t.left, t.key, t.item, s, t.altura)
  {
    SameShapeHeight(s, t.right);
    CachedHeight(s);
    CachedHeight(t.left);
    CachedHeight(t.right);
    assert SetAltura(Node(t.left, t.key, t.item, s, t.altura)) == Node(t.left, t.key, t.item, s, t.altura);
  }

  /**
   Hence inserting a key already stored keeps the tree's shape (nodes, keys
   and heights) and puts the new item in that key's node.
   */
  lemma InsertExistingKeepsShape<K(!new), V>(cmp: (K, K) -> int, t: No<K, V>, k: K, v: V)
    requires TotalOrder(cmp) && IsAvl(cmp, t) && k in Keys(t)
    ensures SameShape(Insert(cmp, t, k, v).tree, t)
    ensures Keys(Insert(cmp, t, k, v).tree) == Keys(t)
    ensures NodeAt(Insert(cmp, t, k, v).tree, k).item == v
  {
    InsertExistingInPlace(cmp, t, k, v);
    ArvoreABB.InsertExistingKeepsShape(cmp, t, k, v);
  }

  /**
   What removing the present key `k` from the AVL tree `t` must produce:
   the key's item and an AVL tree holding the rest of the map, one node
   smaller, at most one level lower.
   */
  ghost predicate AvlRemoved<K(!new), V>(cmp: (K, K) -> int, t: No<K, V>, k: K, s: Removed<K, V>)
  {
    && RemovedFrom(cmp, t, k, s)
    && IsAvl(cmp, s.tree)
    && Height(t) - 1 <= Height(s.tree) <= Height(t)
  }

  /**
   `remover` throws NoSuchElementException exactly when the key is absent;
   otherwise it returns the key's item, keeps the AVL invariant, drops
   exactly that key, leaves every other pair alone, one node fewer, and
   lowers the height by at most one.
   */
  lemma {:induction false} RemoveCorrect<K(!new), V>(cmp: (K, K) -> int, t: No<K, V>, k: K)
    requires TotalOrder(cmp) && IsAvl(cmp, t)
    ensures Remove(cmp, t, k).Success? <==> k in Keys(t)
    ensures Remove(cmp, t, k).Failure? ==> Remove(cmp, t, k).error == NoSuchElement
    ensures Remove(cmp, t, k).Success? ==> AvlRemoved(cmp, t, k, Remove(cmp, t, k).value)
  {
    match t
    case Nil =>
    case Node(l, key, item, rt, a) =>
      var c := cmp(k, key);
      if c < 0 {
        RemoveCorrect(cmp, l, k);
        var s := Remove(cmp, l, k);
        RemoveLeftCase(cmp, t, k, s, a);
        if s.Success? {
          RemoveStepLeft(cmp, t, k, s.value);
        }
      } else if c > 0 {
        RemoveCorrect(cmp, rt, k);
        var s := Remove(cmp, rt, k);
        RemoveRightCase(cmp, t, k, s, a);
        if s.Success? {
          RemoveStepRight(cmp, t, k, s.value);
        }
      } else if l.Nil? || rt.Nil? {
        RemoveOneChildCase(cmp, t, k);
        CachedHeight(l);
        CachedHeight(rt);
        assert Remove(cmp, t, k) == Success(Removed(if l.Nil? then rt else l, item, 1));
      } else {
        var m := Leftmost(rt);
        LeftmostIsMinimum(cmp, rt);
        RemoveCorrect(cmp, rt, m.key);
        RemoveStepSuccessor(cmp, t, k, Remove(cmp, rt, m.key).value);
      }
  }

  /** The way back from a removal in the left subtree: height recomputed, then `balancear`. */
  lemma RemoveStepLeft<K(!new), V>(cmp: (K, K) -> int, t: No<K, V>, k: K, s: Removed<K, V>)
    requires TotalOrder(cmp) && IsAvl(cmp, t) && t.Node? && cmp(k, t.key) < 0
    requires AvlRemoved(cmp, t.left, k, s)
    ensures AvlRemoved(cmp, t, k, Removed(Balancear(SetAltura(Node(s.tree, t.key, t.item, t.right, t.altura))), s.item, s.decrements))
  {
    var n := SetAltura(Node(s.tree, t.key, t.item, t.right, t.altura));
    assert n == Node(s.tree, t.key, t.item, t.right, n.altura);
    RemoveLeftCase(cmp, t, k, Success(s), n.altura);
    CachedHeight(s.tree);
    CachedHeight(t.right);
    RebalanceRemoved(cmp, t, k, Removed(n, s.item, s.decrements));
  }

  /** The way back from a removal in the right subtree. */
  lemma RemoveStepRight<K(!new), V>(cmp: (K, K) -> int, t: No<K, V>, k: K, s: Removed<K, V>)
    requires TotalOrder(cmp) && IsAvl(cmp, t) && t.Node? && cmp(k, t.key) > 0
    requires AvlRemoved(cmp, t.right, k, s)
    ensures AvlRemoved(cmp, t, k, Removed(Balancear(SetAltura(Node(t.left, t.key, t.item, s.tree, t.altura))), s.item, s.decrements))
  {
    var n := SetAltura(Node(t.left, t.key, t.item, s.tree, t.altura));
    assert n == Node(t.left, t.key, t.item, s.tree, n.altura);
    RemoveRightCase(cmp, t, k, Success(s), n.altura);
    CachedHeight(s.tree);
    CachedHeight(t.left);
    RebalanceRemoved(cmp, t, k, Removed(n, s.item, s.decrements));
  }

  /** The two-children case: the successor moves up, is removed below, and the node is rebalanced. */
  lemma RemoveStepSuccessor<K(!new), V>(cmp: (K, K) -> int, t: No<K, V>, k: K, s: Removed<K, V>)
    requires TotalOrder(cmp) && IsAvl(cmp, t) && t.Node? && t.left.Node? && t.right.Node? && cmp(k, t.key) == 0
    requires AvlRemoved(cmp, t.right, Leftmost(t.right).key, s)
    requires Elements(t.right)[Leftmost(t.right).key] == Leftmost(t.right).item
    requires forall x :: x in Keys(t.right) && x != Leftmost(t.right).key ==> cmp(Leftmost(t.right).key, x) < 0
    ensures var m := Leftmost(t.right);
      AvlRemoved(cmp, t, k, Removed(Balancear(SetAltura(Node(t.left, m.key, m.item, s.tree, t.altura))), t.item, 1 + s.decrements))
  {
    var m := Leftmost(t.right);
    var n := SetAltura(Node(t.left, m.key, m.item, s.tree, t.altura));
    RemoveSuccessor(cmp, t, k, s, n.altura);
    CachedHeight(s.tree);
    CachedHeight(t.left);
    RebalanceRemoved(cmp, t, k, Removed(n, t.item, 1 + s.decrements));
  }

  /**
   A node rebuilt on the way back from a removal, one of whose subtrees may
   have lost a level, is turned by `balancear` into an AVL tree with the same
   contents, at most one level lower than the original subtree.
   */
  lemma RebalanceRemoved<K(!new), V>(cmp: (K, K) -> int, t: No<K, V>, k: K, s: Removed<K, V>)
    requires TotalOrder(cmp) && IsAvl(cmp, t) && t.Node? && s.tree.Node?
    requires RemovedFrom(cmp, t, k, s)
    requires HeightsCached(s.tree) && Balanced(s.tree.left) && Balanced(s.tree.right)
    requires -2 <= Height(s.tree.left) - Height(s.tree.right) <= 2
    requires Height(t) - 1 <= Height(s.tree) <= Height(t)
    requires Height(s.tree.left) - Height(s.tree.right) in {-2, 2} ==> Height(s.tree) == Height(t)
    ensures AvlRemoved(cmp, t, k, Removed(Balancear(s.tree), s.item, s.decrements))
  {
    BalancearCorrect(cmp, s.tree);
  }

  lemma MapAssoc<K, V>(a: map<K, V>, b: map<K, V>, c: map<K, V>)
    ensures a + (b + c) == (a + b) + c
  {
  }

  /**
   As written, `remover` runs `tamanho--` at the matched node and once more
   when the recursive call deletes the successor, exactly as the unbalanced
   tree does: removing a node with two children counts two removals.
   */
  lemma {:induction false} RemoveDecrementsAsWritten<K(!new), V>(cmp: (K, K) -> int, t: No<K, V>, k: K)
    requires TotalOrder(cmp) && IsAvl(cmp, t) && k in Keys(t)
    ensures Remove(cmp, t, k).Success?
    ensures Remove(cmp, t, k).value.decrements ==
      if NodeAt(t, k).left.Node? && NodeAt(t, k).right.Node? then 2 else 1
  {
    RemoveCorrect(cmp, t, k);
    BstNode(cmp, t);
    KeysOfNode(t);
    var c := cmp(k, t.key);
    if c < 0 {
      assert k != t.key && k !in Keys(t.right);
      RemoveDecrementsAsWritten(cmp, t.left, k);
    } else if c > 0 {
      assert k != t.key && k !in Keys(t.left);
      RemoveDecrementsAsWritten(cmp, t.right, k);
    } else if t.left.Node? && t.right.Node? {
      RemoveLeftmostOnce(cmp, t.right);
      RemoveCorrect(cmp, t.right, Leftmost(t.right).key);
    }
  }

  /** Deleting the leftmost key of an AVL tree runs `tamanho--` once. */
  lemma {:induction false} RemoveLeftmostOnce<K(!new), V>(cmp: (K, K) -> int, t: No<K, V>)
    requires TotalOrder(cmp) && IsAvl(cmp, t) && t.Node?
    ensures Remove(cmp, t, Leftmost(t).key).Success?
    ensures Remove(cmp, t, Leftmost(t).key).value.decrements == 1
  {
    assert cmp(t.key, t.key) == 0;
    RemoveCorrect(cmp, t, Leftmost(t).key);
    LeftmostKey(t);
    if t.left.Node? {
      LeftmostKey(t.left);
      KeysOfNode(t);
      assert cmp(Leftmost(t.left).key, t.key) < 0;
      RemoveLeftmostOnce(cmp, t.left);
    }
  }

  // ---------------------------------------------------------------------
  // The AVL class
  // ---------------------------------------------------------------------

  /**
   src/AVL.java's class: the root, the node count, the comparator and the
   comparisons counted by the last search.
   */
  class AVL<K(==, !new), V> {
    const comparador: (K, K) -> int
    var raiz: No<K, V>
    var tamanho: int
    var comparacoes: int

    /** The AVL invariant holds and `tamanho` counts the nodes. */
    ghost predicate Valid()
      reads this
    {
      TotalOrder(comparador) && IsAvl(comparador, raiz) && tamanho == Size(raiz)
    }

    /** `AVL(comparador)`: an empty tree ordered by the given comparator. */
    constructor (comparador: (K, K) -> int)
      requires TotalOrder(comparador)
      ensures Valid() && this.comparador == comparador
      ensures raiz == Nil && tamanho == 0 && comparacoes == 0
    {
      this.comparador := comparador;
      raiz := Nil;
      tamanho := 0;
      comparacoes := 0;
    }

    /** `vazia()`: the root is null, that is, the map is empty. */
    method Vazia() returns (b: bool)
      requires Valid()
      ensures b <==> raiz.Nil?
      ensures b <==> Elements(raiz) == map[]
    {
      b := raiz.Nil?;
      if !b {
        assert raiz.key in Elements(raiz);
      }
    }

    /**
     `pesquisar(chave)`: the key's item, or NoSuchElementException; the
     comparison counter is reset and then counts the visited nodes, which
     the balance keeps within the height.
     */
    method Pesquisar(chave: K) returns (r: Result<V>)
      requires Valid()
      modifies this`comparacoes
      ensures Valid()
      ensures r == if chave in Elements(raiz) then Success(Elements(raiz)[chave]) else Failure(NoSuchElement)
      ensures chave in Keys(raiz) ==> comparacoes == Depth(raiz, chave)
      ensures 1 <= comparacoes <= Height(raiz) + 1
      ensures chave !in Keys(raiz) ==> forall v: V ::
        chave in Keys(ArvoreABB.Insert(comparador, raiz, chave, v).tree) &&
        comparacoes == Depth(ArvoreABB.Insert(comparador, raiz, chave, v).tree, chave)
    {
      var s := Search(comparador, raiz, chave);
      SearchFinds(comparador, raiz, chave);
      SearchCost(comparador, raiz, chave);
      comparacoes := s.comparisons;
      r := if s.found.Some? then Success(s.found.value) else Failure(NoSuchElement);
      if chave !in Keys(raiz) {
        forall v: V
          ensures chave in Keys(ArvoreABB.Insert(comparador, raiz, chave, v).tree)
          ensures comparacoes == Depth(ArvoreABB.Insert(comparador, raiz, chave, v).tree, chave)
        {
          ArvoreABB.SearchMissDepth(comparador, raiz, chave, v);
        }
      }
    }

    /**
     `inserir(chave, item)`: the tree stays an AVL tree, the key now maps to
     the item, every other pair is kept, `tamanho` grows by one exactly when
     the key was new, and the updated size is returned; a key already stored
     leaves the shape of the tree as it was.
     */
    method Inserir(chave: K, item: V) returns (n: int)
      requires Valid()
      modifies this
      ensures Valid() && comparacoes == old(comparacoes)
      ensures Elements(raiz) == old(Elements(raiz))[chave := item]
      ensures tamanho == old(tamanho) + if chave in old(Keys(raiz)) then 0 else 1
      ensures chave in old(Keys(raiz)) ==> SameShape(raiz, old(raiz))
      ensures n == tamanho
    {
      var s := Insert(comparador, raiz, chave, item);
      InsertCorrect(comparador, raiz, chave, item);
      if chave in Keys(raiz) {
        InsertExistingKeepsShape(comparador, raiz, chave, item);
      }
      raiz := s.tree;
      if s.grew {
        tamanho := tamanho + 1;
      }
      n := tamanho;
    }

    /**
     `remover(chave)` with `tamanho` decremented once per removed key (the
     Java code decrements it twice when the node has two children): an
     absent key throws and changes nothing; a present key's item is
     returned, only that key is dropped and the tree stays an AVL tree.
     */
    method Remover(chave: K) returns (r: Result<V>)
      requires Valid()
      modifies this
      ensures Valid() && comparacoes == old(comparacoes)
      ensures chave !in old(Keys(raiz)) ==>
        r == Failure(NoSuchElement) && raiz == old(raiz) && tamanho == old(tamanho)
      ensures chave in old(Keys(raiz)) ==>
        && r == Success(old(Elements(raiz))[chave])
        && Elements(raiz) == old(Elements(raiz)) - {chave}
        && tamanho == old(tamanho) - 1
    {
      RemoveCorrect(comparador, raiz, chave);
      match Remove(comparador, raiz, chave)
      case Failure(e) =>
        r := Failure(e);
      case Success(s) =>
        raiz := s.tree;
        tamanho := tamanho - 1;
        r := Success(s.item);
    }

    /** `tamanho()`: the number of stored keys. */
    method Tamanho() returns (n: int)
      requires Valid()
      ensures n == tamanho == |Keys(raiz)|
    {
      SizeIsKeyCount(comparador, raiz);
      n := tamanho;
    }

    /** `getComparacoes()`: the count left by the last `pesquisar`. */
    method GetComparacoes() returns (c: int)
      ensures c == comparacoes
    {
      c := comparacoes;
    }

    /**
     `caminhamentoEmOrdem()` (also `percorrer()` and `toString()`): every
     item followed by a line break, in increasing key order; the pairs listed
     are exactly the stored map, each key once with its own item.
     */
    method CaminhamentoEmOrdem(render: V -> string) returns (s: string)
      requires Valid()
      ensures s == Lines(InOrder(raiz), ItemLine(render))
      ensures Increasing(comparador, InOrder(raiz))
      ensures forall i :: 0 <= i < |InOrder(raiz)| ==>
        InOrder(raiz)[i].0 in Keys(raiz) && Elements(raiz)[InOrder(raiz)[i].0] == InOrder(raiz)[i].1
      ensures forall k :: k in Keys(raiz) ==> exists i :: 0 <= i < |InOrder(raiz)| && InOrder(raiz)[i].0 == k
    {
      s := InOrderText(raiz, render);
      InOrderTextLines(raiz, render);
      InOrderSorted(comparador, raiz);
      InOrderIsMap(comparador, raiz);
    }
  }
}
