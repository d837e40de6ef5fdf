/**
 The separate-chaining hash map of src/TabelaHash.java: a fixed array of
 `Lista<Entrada>` buckets, each a chain of cells holding key/value entries.

 The ghost field `Buckets` is the table's meaning: bucket `i` is the
 sequence of entries of the list in `tabela[i]`, head first. Every method
 is specified by what it does to `Buckets`, through the functions of module
 Espalhamento (`Put`, `Delete`, `Get`, `Lookup`, `Flatten`).
 */
module Tabela {
  import opened Comum
  import opened Celulas
  import opened Listas
  import opened Espalhamento

  /** The capacity `TabelaHash()` uses. */
  const CapacidadePadrao := 101

  class TabelaHash<K(==), V> {
    const capacidade: int
    const hashCode: K -> int32
    const tabela: array<Lista?<Entrada<K, V>>>
    var tamanho: int
    var comparacoes: int

    ghost var Buckets: seq<seq<Entrada<K, V>>>
    ghost var Repr: set<object>

    /** The list is present and it and its cells belong to the table. */
    ghost predicate Owned(l: Lista?<Entrada<K, V>>)
      reads this`Repr, l
    {
      l != null && l in Repr && l.Repr <= Repr
    }

    /**
     Slot `i` holds a valid list whose entries are bucket `i`; the lists
     share no cell; every key sits in the bucket its hash selects, at most
     once; `tamanho` counts the entries.
     */
    ghost predicate Valid()
      reads this`Buckets, this`tamanho, this`Repr, Repr
    {
      && tabela in Repr && this !in Repr
      && tabela.Length == capacidade == |Buckets|
      && Placed(Buckets, hashCode)
      && tamanho == Count(Buckets)
      && (forall i :: 0 <= i < capacidade ==>
            tabela[i] in Repr && Owned(tabela[i]) && tabela[i].Valid() && tabela[i].Contents == Buckets[i])
      && (forall i, j :: 0 <= i < j < capacidade ==> tabela[i] != tabela[j] && tabela[i].Repr !! tabela[j].Repr)
    }

    /** `TabelaHash(capacidade)`: `capacidade` empty lists; nothing is stored. */
    constructor (capacidade: int, hashCode: K -> int32)
      requires capacidade > 0
      ensures Valid() && fresh(Repr)
      ensures this.capacidade == capacidade && this.hashCode == hashCode
      ensures Buckets == EmptyBuckets(capacidade) && tamanho == 0
      ensures forall k :: Get(Buckets, hashCode, k) == None
    {
      this.capacidade := capacidade;
      this.hashCode := hashCode;
      tabela := new Lista?<Entrada<K, V>>[capacidade];
      new;
      Preencher();
    }

    /** `TabelaHash()`: the default capacity of 101 buckets. */
    constructor Padrao(hashCode: K -> int32)
      ensures Valid() && fresh(Repr)
      ensures capacidade == CapacidadePadrao && this.hashCode == hashCode
      ensures Buckets == EmptyBuckets(CapacidadePadrao) && tamanho == 0
      ensures forall k :: Get(Buckets, hashCode, k) == None
    {
      capacidade := CapacidadePadrao;
      this.hashCode := hashCode;
      tabela := new Lista?<Entrada<K, V>>[CapacidadePadrao];
      new;
      Preencher();
    }

    /** The constructor's loop: a fresh empty list in every slot, `tamanho` reset to 0. */
    method Preencher()
      requires tabela.Length == capacidade > 0
      modifies this, tabela
      ensures Valid() && fresh(Repr - {tabela})
      ensures Buckets == EmptyBuckets(capacidade) && tamanho == 0
      ensures forall k :: Get(Buckets, hashCode, k) == None
    {
      Repr := {tabela};
      var i := 0;
      while i < capacidade
        invariant 0 <= i <= capacidade
        invariant tabela in Repr && fresh(Repr - {tabela})
        invariant forall p :: 0 <= p < i ==> Owned(tabela[p]) && tabela[p].Valid() && tabela[p].Contents == []
        invariant forall p, q :: 0 <= p < q < i ==> tabela[p] != tabela[q] && tabela[p].Repr !! tabela[q].Repr
      {
        Pendurar(i);
        i := i + 1;
      }
      tamanho := 0;
      Buckets := EmptyBuckets(capacidade);
      VaziaValida();
    }

    /** One step of the constructor's loop: a fresh empty list in slot `i`. */
    method Pendurar(i: int)
      requires 0 <= i < tabela.Length && tabela in Repr
      requires forall p :: 0 <= p < i ==> Owned(tabela[p]) && tabela[p].Valid() && tabela[p].Contents == []
      requires forall p, q :: 0 <= p < q < i ==>
        tabela[p] != null && tabela[q] != null && tabela[p] != tabela[q] && tabela[p].Repr !! tabela[q].Repr
      modifies this`Repr, tabela
      ensures tabela in Repr && old(Repr) <= Repr && fresh(Repr - old(Repr))
      ensures forall p :: 0 <= p < i + 1 ==> Owned(tabela[p]) && tabela[p].Valid() && tabela[p].Contents == []
      ensures forall p, q :: 0 <= p < q < i + 1 ==>
        tabela[p] != null && tabela[q] != null && tabela[p] != tabela[q] && tabela[p].Repr !! tabela[q].Repr
    {
      ghost var antes, listas := Repr, tabela[..];
      var l := new Lista<Entrada<K, V>>();
      tabela[i] := l;
      Repr := Repr + {l} + l.Repr;
      assert l !in antes && l.Repr !! antes;
      forall p, q | 0 <= p < q < i + 1
        ensures tabela[p] != tabela[q] && tabela[p].Repr !! tabela[q].Repr
      {
        assert tabela[p] == listas[p] && listas[p] in antes && listas[p].Repr <= antes;
        if q < i {
          assert tabela[q] == listas[q];
        } else {
          assert tabela[q] == l;
        }
      }
    }

    /** A table whose slots all hold distinct, disjoint, valid empty lists is a valid empty table. */
    lemma VaziaValida()
      requires tabela.Length == capacidade > 0 && tabela in Repr && this !in Repr
      requires Buckets == EmptyBuckets(capacidade) && tamanho == 0
      requires forall p :: 0 <= p < capacidade ==> Owned(tabela[p]) && tabela[p].Valid() && tabela[p].Contents == []
      requires forall p, q :: 0 <= p < q < capacidade ==>
        tabela[p] != null && tabela[q] != null && tabela[p] != tabela[q] && tabela[p].Repr !! tabela[q].Repr
      ensures Valid() && forall k :: Get(Buckets, hashCode, k) == None
    {
      EmptyTable<K, V>(capacidade, hashCode);
    }

    /**
     When nothing outside slot `h` (its list and its cells) has changed but
     the table's own fields, every other slot still holds its old list, with
     the same cells and entries.
     */
    twostate lemma OutrasIntactas(h: int)
      requires old(Valid()) && 0 <= h < capacidade && old(Repr) <= Repr
      requires forall o: object :: old(allocated(o)) && o != this && o != old(tabela[h]) && o !in old(tabela[h].Repr) ==> unchanged(o)
      ensures unchanged(tabela)
      ensures forall i :: 0 <= i < capacidade && i != h ==>
        && tabela[i] in Repr && Owned(tabela[i])
        && tabela[i].Valid() && tabela[i].Contents == old(Buckets[i]) && tabela[i].Repr == old(tabela[i].Repr)
    {
      var t: object := tabela;
      assert t !in old(tabela[h].Repr) && unchanged(tabela);
      forall i | 0 <= i < capacidade && i != h
        ensures tabela[i] in Repr && Owned(tabela[i])
        ensures tabela[i].Valid() && tabela[i].Contents == old(Buckets[i]) && tabela[i].Repr == old(tabela[i].Repr)
      {
        var l, m := old(tabela[i]), old(tabela[h]);
        assert old(Owned(l) && l.Valid() && Owned(m));
        if i < h {
          assert old(tabela[i] != tabela[h] && tabela[i].Repr !! tabela[h].Repr);
        } else {
          assert old(tabela[h] != tabela[i] && tabela[h].Repr !! tabela[i].Repr);
        }
        var lo: object := l;
        assert lo !in old(m.Repr) && unchanged(l);
        forall c | c in old(l.Repr)
          ensures unchanged(c)
        {
          var co: object := c;
          assert co !in old(m.Repr);
        }
      }
    }

    /**
     A table of which nothing outside slot `h` has changed but its own
     fields, whose slot `h` again holds a valid list standing for the new
     bucket `h`, and whose buckets are still placed and counted, is valid.
     */
    twostate lemma Recompor(h: int)
      requires old(Valid()) && 0 <= h < capacidade && old(Repr) <= Repr
      requires forall o: object :: old(allocated(o)) && o != this && o != old(tabela[h]) && o !in old(tabela[h].Repr) ==> unchanged(o)
      requires this !in Repr && |Buckets| == capacidade && Placed(Buckets, hashCode) && tamanho == Count(Buckets)
      requires forall i :: 0 <= i < capacidade && i != h ==> Buckets[i] == old(Buckets[i])
      requires tabela[h] in Repr && Owned(tabela[h]) && tabela[h].Valid() && tabela[h].Contents == Buckets[h]
      requires fresh(tabela[h].Repr - old(tabela[h].Repr))
      ensures Valid()
    {
      OutrasIntactas(h);
      forall i | 0 <= i < capacidade && i != h
        ensures tabela[h].Repr !! tabela[i].Repr
      {
        if i < h {
          assert old(tabela[i].Repr !! tabela[h].Repr);
        } else {
          assert old(tabela[h].Repr !! tabela[i].Repr);
        }
      }
      forall i | 0 <= i < capacidade
        ensures tabela[i] in Repr && Owned(tabela[i]) && tabela[i].Valid() && tabela[i].Contents == Buckets[i]
      {
        if i != h {
          assert Buckets[i] == old(Buckets[i]);
        }
      }
      forall i, j | 0 <= i < j < capacidade
        ensures tabela[i] != tabela[j] && tabela[i].Repr !! tabela[j].Repr
      {
        assert old(tabela[i] != tabela[j]);
        if i != h && j != h {
          assert old(tabela[i].Repr !! tabela[j].Repr);
        }
      }
    }

    /** `hash(chave)`: the bucket of a key, always a valid slot. */
    function Indice(chave: K): (h: int)
      requires capacidade > 0
      ensures 0 <= h < capacidade
      ensures h == Abs(hashCode(chave) as int) % capacidade
    {
      HashInRange(hashCode(chave), capacidade);
      Hash(hashCode(chave), capacidade)
    }

    /** `obterPrimeiraCelula(lista)`: the cell after the sentinel, read directly. */
    static method ObterPrimeiraCelula(lista: Lista<Entrada<K, V>>) returns (c: Celula?<Entrada<K, V>>)
      requires lista.Valid()
      ensures c == if lista.Cells == [] then null else lista.Cells[0]
    {
      c := lista.primeiro.GetProximo();
    }

    /**
     The walk the three operations share: from the first cell of the bucket,
     follow `proximo` until a cell whose entry has the key, counting the
     entries examined. `j` is the position reached: the match, or the end.
     */
    static method Procurar(lista: Lista<Entrada<K, V>>, chave: K)
      returns (anterior: Celula?<Entrada<K, V>>, atual: Celula?<Entrada<K, V>>, ghost j: nat, examinadas: nat)
      requires lista.Valid()
      ensures j <= |lista.Contents|
      ensures forall p :: 0 <= p < j ==> lista.Contents[p].chave != chave
      ensures j < |lista.Contents| ==> atual == lista.Cells[j] && lista.Contents[j].chave == chave && examinadas == j + 1
      ensures j == |lista.Contents| ==> atual == null && examinadas == j
      ensures anterior == if j == 0 then null else lista.Cells[j - 1]
    {
      anterior, atual, j, examinadas := null, null, 0, 0;
      var vazia := lista.Vazia();
      if vazia {
        return;
      }
      atual := ObterPrimeiraCelula(lista);
      while atual != null
        invariant 0 <= j <= |lista.Cells| && examinadas == j
        invariant atual == if j < |lista.Cells| then lista.Cells[j] else null
        invariant anterior == if j == 0 then null else lista.Cells[j - 1]
        invariant forall p :: 0 <= p < j ==> lista.Contents[p].chave != chave
        decreases |lista.Cells| - j
      {
        examinadas := examinadas + 1;
        var e := atual.GetItem();
        if e.value.chave == chave {
          return;
        }
        anterior := atual;
        atual := atual.GetProximo();
        j := j + 1;
      }
    }

    /**
     `inserir(chave, item)`: the key's bucket is walked from the head; an
     entry with that key gets the new value in place and the size is
     returned unchanged, otherwise a new entry is appended at the bucket's
     tail and `tamanho` grows by one.
     */
    method Inserir(chave: K, item: V) returns (n: int)
      requires Valid()
      modifies this, Repr
      ensures Valid() && comparacoes == old(comparacoes)
      ensures Buckets == old(Buckets[Indice(chave) := Put(Buckets[Indice(chave)], chave, item)])
      ensures tamanho == old(tamanho) + if old(Lookup(Buckets[Indice(chave)], chave)).None? then 1 else 0
      ensures n == tamanho
    {
      var indice := Indice(chave);
      var lista := tabela[indice];
      ghost var b := Buckets[indice];
      var _, atual, j, _ := Procurar(lista, chave);
      FindUnique(b, chave);
      if atual != null {
        SubstituirValor(indice, atual, j, chave, item);
        return tamanho;
      }
      Acrescentar(indice, chave, item);
      n := tamanho;
    }

    /** The hit of `inserir`: the entry in cell `atual`, the `j`-th of the key's bucket, takes the new value. */
    method SubstituirValor(indice: int, atual: Celula<Entrada<K, V>>, ghost j: nat, chave: K, item: V)
      requires Valid() && capacidade > 0 && indice == Indice(chave)
      requires j < |Buckets[indice]| && atual == tabela[indice].Cells[j] && Find(Buckets[indice], chave) == Some(j)
      modifies this`Buckets, tabela[indice], atual
      ensures Valid() && Repr == old(Repr) && tamanho == old(tamanho) && comparacoes == old(comparacoes)
      ensures Buckets == old(Buckets[indice := Put(Buckets[indice], chave, item)])
    {
      assert Put(Buckets[indice], chave, item) == Buckets[indice][j := Entrada(chave, item)];
      Sobrescrever(tabela[indice], atual, indice, j, Entrada(chave, item));
      Substituida((indice, j, chave, item));
    }

    /** The steps of the hit: the cell's entry is replaced, and the table's buckets follow. */
    method Sobrescrever(lista: Lista<Entrada<K, V>>, atual: Celula<Entrada<K, V>>, ghost indice: int, ghost j: nat, e: Entrada<K, V>)
      requires lista.Valid() && j < |lista.Cells| && atual == lista.Cells[j] && 0 <= indice < |Buckets| && j < |Buckets[indice]|
      modifies this`Buckets, lista`Contents, atual`item
      ensures lista.Valid() && lista.Contents == old(lista.Contents)[j := e]
      ensures Buckets == old(Buckets[indice := Buckets[indice][j := e]])
    {
      lista.SubstituirItem(atual, j, e);
      Buckets := Buckets[indice := Buckets[indice][j := e]];
    }

    /**
     After the `j`-th entry of the key's bucket took the new value, in the
     list and in `Buckets`, the table is valid again.

     `p` is (bucket index, position `j`, key, new value).
     */
    twostate lemma Substituida(p: (int, nat, K, V))
      requires old(Valid()) && capacidade > 0 && p.0 == Indice(p.2) && Find(old(Buckets[p.0]), p.2) == Some(p.1)
      requires old(tabela[p.0]).Valid() && old(tabela[p.0]).Contents == old(tabela[p.0].Contents)[p.1 := Entrada(p.2, p.3)]
      requires unchanged(tabela) && old(tabela[p.0]).Repr == old(tabela[p.0].Repr)
      requires tamanho == old(tamanho) && Repr == old(Repr)
      requires Buckets == old(Buckets[p.0 := Buckets[p.0][p.1 := Entrada(p.2, p.3)]])
      requires forall o: object :: old(allocated(o)) && o != this && o != old(tabela[p.0]) && o !in old(tabela[p.0].Repr) ==> unchanged(o)
      ensures Valid()
    {
      var (h, j, chave, item) := p;
      PutKeepsPlaced(old(Buckets), hashCode, chave, item);
      assert Put(old(Buckets[h]), chave, item) == old(Buckets[h])[j := Entrada(chave, item)];
      CountUpdate(old(Buckets), h, Buckets[h]);
      Recompor(h);
    }

    /** The miss of `inserir`: a new entry is appended to the key's bucket, and `tamanho` grows. */
    method Acrescentar(indice: int, chave: K, item: V)
      requires Valid() && capacidade > 0 && indice == Indice(chave)
      requires Find(Buckets[indice], chave).None?
      modifies this, tabela[indice], tabela[indice].ultimo
      ensures Valid() && comparacoes == old(comparacoes)
      ensures Buckets == old(Buckets[indice := Put(Buckets[indice], chave, item)])
      ensures tamanho == old(tamanho) + 1
    {
      assert Put(Buckets[indice], chave, item) == Buckets[indice] + [Entrada(chave, item)];
      Anexar(tabela[indice], indice, Entrada(chave, item));
      Acrescentada((indice, chave, item));
    }

    /** The steps of the miss: the bucket's list appends the entry, and the table's fields follow. */
    method Anexar(lista: Lista<Entrada<K, V>>, ghost indice: int, e: Entrada<K, V>)
      requires lista.Valid() && 0 <= indice < |Buckets|
      modifies this`tamanho, this`Buckets, this`Repr, lista, lista.ultimo
      ensures lista.Valid() && lista.Contents == old(lista.Contents) + [e]
      ensures old(lista.Repr) <= lista.Repr && fresh(lista.Repr - old(lista.Repr))
      ensures tamanho == old(tamanho) + 1 && Repr == old(Repr) + lista.Repr
      ensures Buckets == old(Buckets[indice := Buckets[indice] + [e]])
    {
      lista.Inserir(e);
      tamanho, Buckets, Repr := tamanho + 1, Buckets[indice := Buckets[indice] + [e]], Repr + lista.Repr;
    }

    /**
     After the list of the key's bucket has appended the entry and the
     table's own fields were updated to match, the table is valid again.
     `p` is (bucket index, key, value).
     */
    twostate lemma Acrescentada(p: (int, K, V))
      requires old(Valid()) && capacidade > 0 && p.0 == Indice(p.1) && Find(old(Buckets[p.0]), p.1).None?
      requires old(tabela[p.0]).Valid() && old(tabela[p.0]).Contents == old(tabela[p.0].Contents) + [Entrada(p.1, p.2)]
      requires old(tabela[p.0].Repr) <= old(tabela[p.0]).Repr && fresh(old(tabela[p.0]).Repr - old(tabela[p.0].Repr))
      requires tamanho == old(tamanho) + 1 && Repr == old(Repr) + old(tabela[p.0]).Repr
      requires Buckets == old(Buckets[p.0 := Buckets[p.0] + [Entrada(p.1, p.2)]])
      requires forall o: object :: old(allocated(o)) && o != this && o != old(tabela[p.0]) && o !in old(tabela[p.0].Repr) ==> unchanged(o)
      ensures Valid()
    {
      var (h, chave, item) := p;
      PutKeepsPlaced(old(Buckets), hashCode, chave, item);
      CountUpdate(old(Buckets), h, Buckets[h]);
      Recompor(h);
    }

    /**
     `pesquisar(chave)`: the value stored under the key, if any. The
     comparison counter restarts and ends as the number of entries of the
     key's bucket examined: up to and including the match, or all of them.
     */
    method Pesquisar(chave: K) returns (r: Option<V>)
      requires Valid()
      modifies this`comparacoes
      ensures Valid()
      ensures r == Get(Buckets, hashCode, chave)
      ensures comparacoes == match Find(Buckets[Indice(chave)], chave)
        case Some(p) => p + 1
        case None => |Buckets[Indice(chave)]|
    {
      var examinadas;
      r, examinadas := Consultar(chave);
      comparacoes := examinadas;
    }

    /** The walk of `pesquisar`: the value found and the number of entries examined. */
    method Consultar(chave: K) returns (r: Option<V>, examinadas: nat)
      requires Valid()
      ensures r == Get(Buckets, hashCode, chave)
      ensures examinadas == match Find(Buckets[Indice(chave)], chave)
        case Some(p) => p + 1
        case None => |Buckets[Indice(chave)]|
    {
      var indice := Indice(chave);
      var lista := tabela[indice];
      ghost var b := Buckets[indice];
      assert lista.Valid() && lista.Contents == b;
      var _, atual, j, n := Procurar(lista, chave);
      examinadas := n;
      if atual == null {
        return None, examinadas;
      }
      assert Find(b, chave) == Some(j);
      var e := atual.GetItem();
      r := Some(e.value.valor);
    }

    /**
     `remover(chave)`: NoSuchElementException when the key is absent, with
     nothing changed; otherwise the key's entry is unlinked from its bucket
     (through `lista.remover()` when it is the head, by a splice past it
     otherwise), `tamanho` shrinks and the removed value is returned.
     */
    method Remover(chave: K) returns (r: Result<V>)
      requires Valid()
      modifies this, Repr
      ensures Valid() && comparacoes == old(comparacoes)
      ensures Buckets == old(Buckets[Indice(chave) := Delete(Buckets[Indice(chave)], chave)])
      ensures r == match old(Lookup(Buckets[Indice(chave)], chave))
        case None => Failure(NoSuchElement)
        case Some(v) => Success(v)
      ensures tamanho == old(tamanho) - if r.Success? then 1 else 0
    {
      var indice := Indice(chave);
      var lista := tabela[indice];
      var anterior, atual, j, _ := Procurar(lista, chave);
      FindUnique(Buckets[indice], chave);
      if atual == null {
        assert Buckets[indice := Delete(Buckets[indice], chave)] == Buckets;
        return Failure(NoSuchElement);
      }
      var e := atual.GetItem();
      assert Delete(Buckets[indice], chave) == Buckets[indice][..j] + Buckets[indice][j + 1..];
      assert Owned(lista) && lista.Contents == Buckets[indice] && Find(Buckets[indice], chave) == Some(j);
      assert anterior == (if j == 0 then null else tabela[indice].Cells[j - 1]);
      assert Valid();
      Desligar(indice, anterior, j, chave);
      r := Success(e.value.valor);
    }

    /** The hit of `remover`: the `j`-th entry of the key's bucket is unlinked. */
    method Desligar(indice: int, anterior: Celula?<Entrada<K, V>>, ghost j: nat, ghost chave: K)
      requires Valid() && capacidade > 0 && indice == Indice(chave)
      requires j < |Buckets[indice]| && Find(Buckets[indice], chave) == Some(j)
      requires anterior == (if j == 0 then null else tabela[indice].Cells[j - 1])
      modifies this, tabela[indice], tabela[indice].primeiro, anterior
      ensures Valid() && comparacoes == old(comparacoes)
      ensures Buckets == old(Buckets[indice := Buckets[indice][..j] + Buckets[indice][j + 1..]])
      ensures tamanho == old(tamanho) - 1
    {
      assert tabela[indice].primeiro in tabela[indice].Repr && (anterior != null ==> anterior in tabela[indice].Repr);
      Retirar(tabela[indice], anterior, indice, j);
      Retirada((indice, j, chave));
    }

    /**
     The steps of a removal: the `j`-th cell is unlinked, by the list's own
     `remover()` when it is the head and by the corrected splice otherwise,
     and the table's fields follow.
     */
    method Retirar(lista: Lista<Entrada<K, V>>, anterior: Celula?<Entrada<K, V>>, ghost indice: int, ghost j: nat)
      requires lista.Valid() && j < |lista.Cells| && anterior == (if j == 0 then null else lista.Cells[j - 1])
      requires 0 <= indice < |Buckets| && j < |Buckets[indice]|
      modifies this`tamanho, this`Buckets, lista, lista.primeiro, anterior
      ensures lista.Valid() && lista.Repr <= old(lista.Repr)
      ensures lista.Contents == old(lista.Contents[..j] + lista.Contents[j + 1..])
      ensures tamanho == old(tamanho) - 1
      ensures Buckets == old(Buckets[indice := Buckets[indice][..j] + Buckets[indice][j + 1..]])
    {
      tamanho, Buckets := tamanho - 1, Buckets[indice := Buckets[indice][..j] + Buckets[indice][j + 1..]];
      if anterior == null {
        assert lista.Contents[..0] + lista.Contents[1..] == lista.Contents[1..];
        var _ := lista.Remover();
      } else {
        lista.RemoverSeguinte(anterior, j);
      }
    }

    /**
     After the `j`-th entry of the key's bucket was unlinked, from the list
     and from `Buckets`, and `tamanho` decremented, the table is valid again.
     `p` is (bucket index, position `j`, key).
     */
    twostate lemma Retirada(p: (int, nat, K))
      requires old(Valid()) && capacidade > 0 && p.0 == Indice(p.2) && Find(old(Buckets[p.0]), p.2) == Some(p.1)
      requires old(tabela[p.0]).Valid() && old(tabela[p.0]).Contents == old(tabela[p.0].Contents[..p.1] + tabela[p.0].Contents[p.1 + 1..])
      requires unchanged(tabela) && old(tabela[p.0]).Repr <= old(tabela[p.0].Repr)
      requires tamanho == old(tamanho) - 1 && Repr == old(Repr)
      requires Buckets == old(Buckets[p.0 := Buckets[p.0][..p.1] + Buckets[p.0][p.1 + 1..]])
      requires forall o: object :: old(allocated(o)) && o != this && o != old(tabela[p.0]) && o !in old(tabela[p.0].Repr) ==> unchanged(o)
      ensures Valid()
    {
      var (h, j, chave) := p;
      DeleteKeepsPlaced(old(Buckets), hashCode, chave);
      assert Delete(old(Buckets[h]), chave) == old(Buckets[h][..j] + Buckets[h][j + 1..]);
      CountUpdate(old(Buckets), h, Buckets[h]);
      Recompor(h);
    }

    /**
     `percorrer()` (and `toString()`): every entry's text followed by a line
     break, the buckets in slot order and each bucket from head to tail.
     */
    method Percorrer(render: Entrada<K, V> -> string) returns (s: string)
      requires Valid()
      ensures s == Lines(Flatten(Buckets), render)
    {
      ghost var bs := Buckets;
      s := "";
      var i := 0;
      while i < capacidade
        invariant 0 <= i <= capacidade && Buckets == bs
        invariant s == Lines(Flatten(bs[..i]), render)
      {
        assert bs[..i + 1][..i] == bs[..i];
        assert Flatten(bs[..i + 1]) == Flatten(bs[..i]) + bs[i];
        var lista := tabela[i];
        assert lista.Valid() && lista.Contents == bs[i];
        var vazia := lista.Vazia();
        if vazia {
          assert Flatten(bs[..i]) + bs[i] == Flatten(bs[..i]);
        } else {
          s := Escrever(lista, s, render);
          LinesAppend(Flatten(bs[..i]), bs[i], render);
        }
        i := i + 1;
      }
      assert bs[..i] == bs;
    }

    /** The walk of one bucket in `percorrer()`: each entry's line appended to `s0`. */
    static method Escrever(lista: Lista<Entrada<K, V>>, s0: string, render: Entrada<K, V> -> string) returns (s: string)
      requires lista.Valid()
      ensures s == s0 + Lines(lista.Contents, render)
    {
      s := s0;
      var atual := ObterPrimeiraCelula(lista);
      ghost var j := 0;
      while atual != null
        invariant 0 <= j <= |lista.Cells|
        invariant atual == if j < |lista.Cells| then lista.Cells[j] else null
        invariant s == s0 + Lines(lista.Contents[..j], render)
        decreases |lista.Cells| - j
      {
        var e := atual.GetItem();
        LinesSnoc(lista.Contents[..j], lista.Contents[j], render);
        assert lista.Contents[..j + 1] == lista.Contents[..j] + [lista.Contents[j]];
        s := s + render(e.value) + "\n";
        atual := atual.GetProximo();
        j := j + 1;
      }
      assert lista.Contents[..j] == lista.Contents;
    }

    /** `tamanho()`: the number of stored pairs. */
    method Tamanho() returns (n: int)
      requires Valid()
      ensures n == tamanho == Count(Buckets)
    {
      n := tamanho;
    }

    /** `getComparacoes()`: the count left by the last search. */
    method GetComparacoes() returns (n: int)
      ensures n == comparacoes
    {
      n := comparacoes;
    }
  }
}
