/**
 The unbalanced binary search tree map of src/ABB.java.

 The recursive helpers that take a subtree and return its new root are
 functions over node values; the class ABB keeps the fields the Java
 class updates (raiz, tamanho, comparacoes) and is specified against the
 map the tree stands for.
 */
module ArvoreABB {
  import opened Comum
  import opened Nos

  /**
   The recursive `inserir(raizArvore, chave, item)`: an empty position
   becomes a new leaf, a smaller or greater key descends and relinks the
   returned subtree, an equal key overwrites the item in place.
   */
  function Insert<K, V>(cmp: (K, K) -> int, t: No<K, V>, k: K, v: V): Inserted<K, V>
  {
    match t
    case Nil => Inserted(Folha(k, v), true)
    case Node(l, key, item, r, a) =>
      var c := cmp(k, key);
      if c < 0 then
        var s := Insert(cmp, l, k, v);
        Inserted(Node(s.tree, key, item, r, a), s.grew)
      else if c > 0 then
        var s := Insert(cmp, r, k, v);
        Inserted(Node(l, key, item, s.tree, a), s.grew)
      else
        Inserted(Node(l, key, v, r, a), false)
  }

  /**
   The recursive `remover`: an empty subtree throws; a smaller or greater
   key descends; a match with at most one child is replaced by that child;
   a match with two children takes the key and item of the leftmost node of
   its right subtree and then removes that key from the right subtree.
   */
  function Remove<K, V>(cmp: (K, K) -> int, t: No<K, V>, k: K): Result<Removed<K, V>>
  {
    match t
    case Nil => Failure(NoSuchElement)
    case Node(l, key, item, r, a) =>
      var c := cmp(k, key);
      if c < 0 then
        match Remove(cmp, l, k)
        case Failure(e) => Failure(e)
        case Success(s) => Success(Removed(Node(s.tree, key, item, r, a), s.item, s.decrements))
      else if c > 0 then
        match Remove(cmp, r, k)
        case Failure(e) => Failure(e)
        case Success(s) => Success(Removed(Node(l, key, item, s.tree, a), s.item, s.decrements))
      else if l.Nil? then
        Success(Removed(r, item, 1))
      else if r.Nil? then
        Success(Removed(l, item, 1))
      else
        var m := Leftmost(r);
        match Remove(cmp, r, m.key)
        case Failure(e) => Failure(e)
        case Success(s) => Success(Removed(Node(l, m.key, m.item, s.tree, a), item, 1 + s.decrements))
  }

  /**
   `copiarArvore(raizArvore, funcaoChave, novaArvore)`: an in-order walk of
   the original that inserts every item, under the key `funcaoChave`
   extracts from it, into the new tree.
   */
  function Copy<K0, K, V>(cmp: (K, K) -> int, t: No<K0, V>, f: V -> K, acc: No<K, V>): No<K, V>
  {
    match t
    case Nil => acc
    case Node(l, _, v, r, _) => Copy(cmp, r, f, Insert(cmp, Copy(cmp, l, f, acc), f(v), v).tree)
  }

  /** The map obtained by storing, in order, every item of `s` under the key `f` gives it. */
  ghost function Rekeyed<K0, K, V>(m: map<K, V>, s: seq<(K0, V)>, f: V -> K): map<K, V>
    decreases |s|
  {
    if s == [] then m else Rekeyed(m[f(s[0].1) := s[0].1], s[1..], f)
  }

  // ---------------------------------------------------------------------
  // Insertion
  // ---------------------------------------------------------------------

  /**
   `inserir` keeps the search-tree order, maps the key to the new item and
   leaves every other pair alone; it grows the tree by one node exactly
   when the key was absent.
   */
  lemma {:induction false} InsertCorrect<K(!new), V>(cmp: (K, K) -> int, t: No<K, V>, k: K, v: V)
    requires TotalOrder(cmp) && IsBST(cmp, t)
    ensures IsBST(cmp, Insert(cmp, t, k, v).tree)
    ensures Elements(Insert(cmp, t, k, v).tree) == Elements(t)[k := v]
    ensures Insert(cmp, t, k, v).grew <==> k !in Keys(t)
    ensures Size(Insert(cmp, t, k, v).tree) == Size(t) + if Insert(cmp, t, k, v).grew then 1 else 0
  {
    match t
    case Nil =>
    case Node(l, key, item, r, a) =>
      var c := cmp(k, key);
      if c < 0 {
        InsertCorrect(cmp, l, k, v);
        InsertLeftCase(cmp, t, k, v, Insert(cmp, l, k, v), a);
      } else if c > 0 {
        InsertCorrect(cmp, r, k, v);
        InsertRightCase(cmp, t, k, v, Insert(cmp, r, k, v), a);
      } else {
        InsertEqualCase(cmp, t, k, v, a);
      }
  }

  /**
   Inserting a key already stored only replaces that node's item: the tree
   keeps its shape (nodes, keys and heights).
   */
  lemma {:induction false} InsertExistingKeepsShape<K(!new), V>(cmp: (K, K) -> int, t: No<K, V>, k: K, v: V)
    requires TotalOrder(cmp) && IsBST(cmp, t) && k in Keys(t)
    ensures SameShape(Insert(cmp, t, k, v).tree, t)
    ensures Keys(Insert(cmp, t, k, v).tree) == Keys(t)
    ensures NodeAt(Insert(cmp, t, k, v).tree, k).item == v
  {
    var t' := Insert(cmp, t, k, v).tree;
    BstNode(cmp, t);
    KeysOfNode(t);
    var c := cmp(k, t.key);
    if c < 0 {
      assert k != t.key && k !in Keys(t.right);
      InsertExistingKeepsShape(cmp, t.left, k, v);
      SameShapeReflexive(t.right);
      assert t' == Node(Insert(cmp, t.left, k, v).tree, t.key, t.item, t.right, t.altura);
      SameShapeSameKeys(t', t);
      KeysOfNode(t');
      assert NodeAt(t', k) == NodeAt(t'.left, k);
    } else if c > 0 {
      assert k != t.key && k !in Keys(t.left);
      InsertExistingKeepsShape(cmp, t.right, k, v);
      SameShapeReflexive(t.left);
      assert t' == Node(t.left, t.key, t.item, Insert(cmp, t.right, k, v).tree, t.altura);
      SameShapeSameKeys(t', t);
      KeysOfNode(t');
      assert NodeAt(t', k) == NodeAt(t'.right, k);
    } else {
      assert k == t.key;
      SameShapeReflexive(t.left);
      SameShapeReflexive(t.right);
      assert t' == Node(t.left, t.key, v, t.right, t.altura);
      SameShapeSameKeys(t', t);
    }
  }

  /** Inserting an absent key hangs it on a new leaf. */
  lemma {:induction false} InsertNewIsLeaf<K(!new), V>(cmp: (K, K) -> int, t: No<K, V>, k: K, v: V)
    requires TotalOrder(cmp) && IsBST(cmp, t) && k !in Keys(t)
    ensures k in Keys(Insert(cmp, t, k, v).tree)
    ensures NodeAt(Insert(cmp, t, k, v).tree, k) == Folha(k, v)
  {
    InsertCorrect(cmp, t, k, v);
    match t
    case Nil =>
    case Node(l, key, item, r, a) =>
      BstNode(cmp, t);
      KeysOfNode(t);
      var c := cmp(k, key);
      assert c != 0;
      if c < 0 {
        InsertNewIsLeaf(cmp, l, k, v);
        KeysOfNode(Node(Insert(cmp, l, k, v).tree, key, item, r, a));
      } else {
        InsertNewIsLeaf(cmp, r, k, v);
        KeysOfNode(Node(l, key, item, Insert(cmp, r, k, v).tree, a));
        assert k !in Keys(l);
      }
  }

  /**
   On a miss, `pesquisar` counts exactly the depth at which `inserir` would
   hang the missing key: one per node on the search path, plus the empty
   subtree that ends it.
   */
  lemma {:induction false} SearchMissDepth<K(!new), V>(cmp: (K, K) -> int, t: No<K, V>, k: K, v: V)
    requires TotalOrder(cmp) && k !in Keys(t)
    ensures k in Keys(Insert(cmp, t, k, v).tree)
    ensures Search(cmp, t, k).comparisons == Depth(Insert(cmp, t, k, v).tree, k)
  {
    match t
    case Nil =>
    case Node(l, key, item, r, a) =>
      KeysOfNode(t);
      var c := cmp(k, key);
      assert c != 0;
      if c < 0 {
        SearchMissDepth(cmp, l, k, v);
        KeysOfNode(Node(Insert(cmp, l, k, v).tree, key, item, r, a));
      } else {
        SearchMissDepth(cmp, r, k, v);
        KeysOfNode(Node(l, key, item, Insert(cmp, r, k, v).tree, a));
      }
  }

  // ---------------------------------------------------------------------
  // Removal
  // ---------------------------------------------------------------------

  /**
   `remover` throws NoSuchElementException exactly when the key is absent;
   otherwise it returns the key's item, keeps the search-tree order, drops
   exactly that key and leaves every other pair alone, one node fewer.
   */
  lemma {:induction false} RemoveCorrect<K(!new), V>(cmp: (K, K) -> int, t: No<K, V>, k: K)
    requires TotalOrder(cmp) && IsBST(cmp, t)
    ensures Remove(cmp, t, k).Success? <==> k in Keys(t)
    ensures Remove(cmp, t, k).Failure? ==> Remove(cmp, t, k).error == NoSuchElement
    ensures Remove(cmp, t, k).Success? ==> RemovedFrom(cmp, t, k, Remove(cmp, t, k).value)
  {
    match t
    case Nil =>
    case Node(l, key, item, r, a) =>
      var c := cmp(k, key);
      if c < 0 {
        RemoveCorrect(cmp, l, k);
        RemoveLeftCase(cmp, t, k, Remove(cmp, l, k), a);
      } else if c > 0 {
        RemoveCorrect(cmp, r, k);
        RemoveRightCase(cmp, t, k, Remove(cmp, r, k), a);
      } else if l.Nil? || r.Nil? {
        RemoveOneChildCase(cmp, t, k);
        assert Remove(cmp, t, k) == Success(Removed(if l.Nil? then r else l, item, 1));
      } else {
        var m := Leftmost(r);
        LeftmostIsMinimum(cmp, r);
        RemoveCorrect(cmp, r, m.key);
        RemoveSuccessor(cmp, t, k, Remove(cmp, r, m.key).value, a);
      }
  }

  /**
   As written, `remover` runs `tamanho--` at the matched node and once more
   when the recursive call deletes the successor, so removing a node with
   two children counts two removals.
   */
  lemma {:induction false} RemoveDecrementsAsWritten<K(!new), V>(cmp: (K, K) -> int, t: No<K, V>, k: K)
    requires TotalOrder(cmp) && IsBST(cmp, t) && k in Keys(t)
    ensures Remove(cmp, t, k).Success?
    ensures Remove(cmp, t, k).value.decrements ==
      if NodeAt(t, k).left.Node? && NodeAt(t, k).right.Node? then 2 else 1
  {
    RemoveCorrect(cmp, t, k);
    BstNode(cmp, t);
    KeysOfNode(t);
    var c := cmp(k, t.key);
    if c < 0 {
      assert k != t.key && k !in Keys(t.right);
      RemoveDecrementsAsWritten(cmp, t.left, k);
    } else if c > 0 {
      assert k != t.key && k !in Keys(t.left);
      RemoveDecrementsAsWritten(cmp, t.right, k);
    } else if t.left.Node? && t.right.Node? {
      RemoveLeftmostOnce(cmp, t.right);
      RemoveCorrect(cmp, t.right, Leftmost(t.right).key);
    }
  }

  /** Deleting the leftmost key of a search tree runs `tamanho--` once. */
  lemma {:induction false} RemoveLeftmostOnce<K(!new), V>(cmp: (K, K) -> int, t: No<K, V>)
    requires TotalOrder(cmp) && IsBST(cmp, t) && t.Node?
    ensures Remove(cmp, t, Leftmost(t).key).Success?
    ensures Remove(cmp, t, Leftmost(t).key).value.decrements == 1
  {
    assert cmp(t.key, t.key) == 0;
    if t.left.Node? {
      LeftmostKey(t.left);
      KeysOfNode(t);
      assert cmp(Leftmost(t.left).key, t.key) < 0;
      RemoveLeftmostOnce(cmp, t.left);
    }
  }

  /** Keys compared as Java's natural order of Integer. */
  function IntOrder(): (int, int) -> int
  {
    (a: int, b: int) => a - b
  }

  /**
   The keys 2, 1, 3 inserted in that order, then `remover(2)`: the tree
   loses one node but `tamanho` falls by two.
   */
  lemma RemoveRootCountsTwice()
    ensures var t := Node(Folha(1, "um"), 2, "dois", Folha(3, "tres"), 1);
      && Insert(IntOrder(), Insert(IntOrder(), Insert(IntOrder(), Nil, 2, "dois").tree, 1, "um").tree, 3, "tres").tree == t
      && Remove(IntOrder(), t, 2) == Success(Removed(Node(Folha(1, "um"), 3, "tres", Nil, 1), "dois", 2))
      && Size(t) == 3 && Size(Node(Folha(1, "um"), 3, "tres", Nil, 1)) == 2
  {
  }

  // ---------------------------------------------------------------------
  // Copying with a new key
  // ---------------------------------------------------------------------

  /**
   `copiarArvore` yields a search tree whose map is the new tree's map
   with every item of the original stored, in in-order position, under the
   key extracted from it.
   */
  lemma {:induction false} CopyCorrect<K0, K(!new), V>(cmp: (K, K) -> int, t: No<K0, V>, f: V -> K, acc: No<K, V>)
    requires TotalOrder(cmp) && IsBST(cmp, acc)
    ensures IsBST(cmp, Copy(cmp, t, f, acc))
    ensures Elements(Copy(cmp, t, f, acc)) == Rekeyed(Elements(acc), InOrder(t), f)
  {
    match t
    case Nil =>
    case Node(l, key, v, r, _) =>
      CopyCorrect(cmp, l, f, acc);
      var left := Copy(cmp, l, f, acc);
      InsertCorrect(cmp, left, f(v), v);
      var mid := Insert(cmp, left, f(v), v).tree;
      CopyCorrect(cmp, r, f, mid);
      RekeyedAppend(Elements(acc), InOrder(l), [(key, v)] + InOrder(r), f);
      assert InOrder(t) == InOrder(l) + ([(key, v)] + InOrder(r));
      assert ([(key, v)] + InOrder(r))[1..] == InOrder(r);
  }

  lemma {:induction false} RekeyedAppend<K0, K, V>(m: map<K, V>, a: seq<(K0, V)>, b: seq<(K0, V)>, f: V -> K)
    ensures Rekeyed(m, a + b, f) == Rekeyed(Rekeyed(m, a, f), b, f)
    decreases |a|
  {
    if a != [] {
      assert (a + b)[0] == a[0];
      assert (a + b)[1..] == a[1..] + b;
      RekeyedAppend(m[f(a[0].1) := a[0].1], a[1..], b, f);
    } else {
      assert a + b == b;
    }
  }

  // ---------------------------------------------------------------------
  // The ABB class
  // ---------------------------------------------------------------------

  /**
   src/ABB.java's class: the root, the node count, the comparator and the
   comparisons counted by the last search.
   */
  class ABB<K(==, !new), V> {
    const comparador: (K, K) -> int
    var raiz: No<K, V>
    var tamanho: int
    var comparacoes: int

    /** The search-tree order holds and `tamanho` counts the nodes. */
    ghost predicate Valid()
      reads this
    {
      TotalOrder(comparador) && IsBST(comparador, raiz) && tamanho == Size(raiz)
    }

    /** `ABB(comparador)`: an empty tree ordered by the given comparator. */
    constructor (comparador: (K, K) -> int)
      requires TotalOrder(comparador)
      ensures Valid() && this.comparador == comparador
      ensures raiz == Nil && tamanho == 0 && comparacoes == 0
    {
      this.comparador := comparador;
      raiz := Nil;
      tamanho := 0;
      comparacoes := 0;
    }

    /** `vazia()`: the root is null, that is, the map is empty. */
    method Vazia() returns (b: bool)
      requires Valid()
      ensures b <==> raiz.Nil?
      ensures b <==> Elements(raiz) == map[]
    {
      b := raiz.Nil?;
      if !b {
        assert raiz.key in Elements(raiz);
      }
    }

    /**
     `pesquisar(chave)`: the key's item, or NoSuchElementException; the
     comparison counter is reset and then counts the visited nodes.
     */
    method Pesquisar(chave: K) returns (r: Result<V>)
      requires Valid()
      modifies this`comparacoes
      ensures Valid()
      ensures r == if chave in Elements(raiz) then Success(Elements(raiz)[chave]) else Failure(NoSuchElement)
      ensures chave in Keys(raiz) ==> comparacoes == Depth(raiz, chave)
      ensures 1 <= comparacoes <= Height(raiz) + 1
      ensures chave !in Keys(raiz) ==> forall v: V ::
        chave in Keys(Insert(comparador, raiz, chave, v).tree) &&
        comparacoes == Depth(Insert(comparador, raiz, chave, v).tree, chave)
    {
      var s := Search(comparador, raiz, chave);
      SearchFinds(comparador, raiz, chave);
      SearchCost(comparador, raiz, chave);
      comparacoes := s.comparisons;
      r := if s.found.Some? then Success(s.found.value) else Failure(NoSuchElement);
      if chave !in Keys(raiz) {
        forall v: V
          ensures chave in Keys(Insert(comparador, raiz, chave, v).tree)
          ensures comparacoes == Depth(Insert(comparador, raiz, chave, v).tree, chave)
        {
          SearchMissDepth(comparador, raiz, chave, v);
        }
      }
    }

    /**
     `inserir(chave, item)`: the key now maps to the item, every other pair
     is kept, `tamanho` grows by one exactly when the key was new, and the
     updated size is returned; a key already stored leaves the shape of the
     tree as it was.
     */
    method Inserir(chave: K, item: V) returns (n: int)
      requires Valid()
      modifies this
      ensures Valid() && comparacoes == old(comparacoes)
      ensures Elements(raiz) == old(Elements(raiz))[chave := item]
      ensures tamanho == old(tamanho) + if chave in old(Keys(raiz)) then 0 else 1
      ensures chave in old(Keys(raiz)) ==> SameShape(raiz, old(raiz))
      ensures n == tamanho
    {
      var s := Insert(comparador, raiz, chave, item);
      InsertCorrect(comparador, raiz, chave, item);
      if chave in Keys(raiz) {
        InsertExistingKeepsShape(comparador, raiz, chave, item);
      }
      raiz := s.tree;
      if s.grew {
        tamanho := tamanho + 1;
      }
      n := tamanho;
    }

    /**
     `remover(chave)` with `tamanho` decremented once per removed key (the
     Java code decrements it twice when the node has two children): an
     absent key throws and changes nothing; a present key's item is
     returned and only that key is dropped.
     */
    method Remover(chave: K) returns (r: Result<V>)
      requires Valid()
      modifies this
      ensures Valid() && comparacoes == old(comparacoes)
      ensures chave !in old(Keys(raiz)) ==>
        r == Failure(NoSuchElement) && raiz == old(raiz) && tamanho == old(tamanho)
      ensures chave in old(Keys(raiz)) ==>
        && r == Success(old(Elements(raiz))[chave])
        && Elements(raiz) == old(Elements(raiz)) - {chave}
        && tamanho == old(tamanho) - 1
    {
      RemoveCorrect(comparador, raiz, chave);
      match Remove(comparador, raiz, chave)
      case Failure(e) =>
        r := Failure(e);
      case Success(s) =>
        raiz := s.tree;
        tamanho := tamanho - 1;
        r := Success(s.item);
    }

    /** `tamanho()`: the number of stored keys. */
    method Tamanho() returns (n: int)
      requires Valid()
      ensures n == tamanho == |Keys(raiz)|
    {
      SizeIsKeyCount(comparador, raiz);
      n := tamanho;
    }

    /** `getComparacoes()`: the count left by the last `pesquisar`. */
    method GetComparacoes() returns (c: int)
      ensures c == comparacoes
    {
      c := comparacoes;
    }

    /**
     `caminhamentoEmOrdem()` (also `percorrer()` and `toString()`): every
     item followed by a line break, in increasing key order; the pairs listed
     are exactly the stored map, each key once with its own item.
     */
    method CaminhamentoEmOrdem(render: V -> string) returns (s: string)
      requires Valid()
      ensures s == Lines(InOrder(raiz), ItemLine(render))
      ensures Increasing(comparador, InOrder(raiz))
      ensures forall i :: 0 <= i < |InOrder(raiz)| ==>
        InOrder(raiz)[i].0 in Keys(raiz) && Elements(raiz)[InOrder(raiz)[i].0] == InOrder(raiz)[i].1
      ensures forall k :: k in Keys(raiz) ==> exists i :: 0 <= i < |InOrder(raiz)| && InOrder(raiz)[i].0 == k
    {
      s := InOrderText(raiz, render);
      InOrderTextLines(raiz, render);
      InOrderSorted(comparador, raiz);
      InOrderIsMap(comparador, raiz);
    }
  }
}
