/**
 The FIFO list of src/Lista.java: a chain of cells hanging from a permanent
 sentinel cell `primeiro`, with `ultimo` pointing at the last cell (the
 sentinel itself when the list is empty) and a `tamanho` counter.

 The ghost field `Cells` lists the data cells in chain order and `Contents`
 their items; `Repr` holds every cell of the list, sentinel included.
 */
module Listas {
  import opened Comum
  import opened Celulas

  class Lista<T> {
    var primeiro: Celula<T>
    var ultimo: Celula<T>
    var tamanho: int

    ghost var Cells: seq<Celula<T>>
    ghost var Contents: seq<T>
    ghost var Repr: set<Celula<T>>

    /**
     The chain from the sentinel visits exactly `Cells`, in order, ends in
     null, and `ultimo` is its last cell; every cell is distinct and holds
     the matching item; `tamanho` counts the data cells.
     */
    ghost predicate Valid()
      reads this, Repr
    {
      && primeiro in Repr
      && |Cells| == |Contents| == tamanho
      && (forall i :: 0 <= i < |Cells| ==> Cells[i] in Repr && Cells[i] != primeiro)
      && (forall i, j :: 0 <= i < j < |Cells| ==> Cells[i] != Cells[j])
      && primeiro.proximo == (if Cells == [] then null else Cells[0])
      && (forall i :: 0 <= i < |Cells| - 1 ==> Cells[i].proximo == Cells[i + 1])
      && (Cells != [] ==> Cells[|Cells| - 1].proximo == null)
      && ultimo == (if Cells == [] then primeiro else Cells[|Cells| - 1])
      && (forall i :: 0 <= i < |Cells| ==> Cells[i].item == Some(Contents[i]))
    }

    /** `Lista()`: a fresh sentinel that is both `primeiro` and `ultimo`; nothing stored. */
    constructor ()
      ensures Valid() && fresh(Repr)
      ensures Contents == [] && primeiro == ultimo && tamanho == 0
    {
      var sentinela := new Celula<T>.Vazia();
      primeiro := sentinela;
      ultimo := sentinela;
      tamanho := 0;
      Cells := [];
      Contents := [];
      Repr := {sentinela};
    }

    /** `vazia()`: `primeiro == ultimo`, which holds exactly when nothing is stored. */
    method Vazia() returns (b: bool)
      requires Valid()
      ensures b <==> primeiro == ultimo
      ensures b <==> Contents == []
    {
      b := primeiro == ultimo;
    }

    /** `inserir(item)`: a new cell holding the item is linked after `ultimo` and becomes `ultimo`. */
    method Inserir(item: T)
      requires Valid()
      modifies this, ultimo
      ensures Valid() && fresh(Repr - old(Repr)) && old(Repr) <= Repr
      ensures Contents == old(Contents) + [item]
      ensures tamanho == old(tamanho) + 1
      ensures primeiro == old(primeiro) && primeiro != ultimo
    {
      var nova := new Celula<T>(item);
      ultimo.proximo := nova;
      ultimo, tamanho := nova, tamanho + 1;
      Cells, Contents, Repr := Cells + [nova], Contents + [item], Repr + {nova};
    }

    /**
     `remover()`: IllegalStateException on an empty list; otherwise the
     oldest item, unlinked from behind the sentinel, with `ultimo` moved
     back to the sentinel when that was the last cell.
     */
    method Remover() returns (r: Result<T>)
      requires Valid()
      modifies this, primeiro
      ensures Valid() && Repr <= old(Repr) && primeiro == old(primeiro)
      ensures old(Contents) == [] ==> r == Failure(IllegalState) && Contents == [] && tamanho == old(tamanho)
      ensures old(Contents) != [] ==>
        && r == Success(old(Contents)[0])
        && Contents == old(Contents)[1..]
        && tamanho == old(tamanho) - 1
        && (Contents == [] ==> ultimo == primeiro)
    {
      var vazia := Vazia();
      if vazia {
        return Failure(IllegalState);
      }
      var removida := primeiro.GetProximo();
      var item := removida.GetItem();
      var seguinte := removida.GetProximo();
      primeiro.SetProximo(seguinte);
      if removida == ultimo {
        ultimo := primeiro;
      }
      tamanho := tamanho - 1;
      r := Success(item.value);
      Cells := Cells[1..];
      Contents := Contents[1..];
      Repr := Repr - {removida};
    }

    /**
     Unlinks the `j`-th data cell (never the first: that one goes through
     `Remover`) from behind its predecessor `anterior`, keeping `ultimo` and
     `tamanho` in step: the splice the hash table performs on an interior
     cell, with the two updates its code leaves out.
     */
    method RemoverSeguinte(anterior: Celula<T>, ghost j: nat)
      requires Valid() && 0 < j < |Cells| && anterior == Cells[j - 1]
      modifies this, anterior
      ensures Valid() && Repr <= old(Repr) && primeiro == old(primeiro)
      ensures Cells == old(Cells[..j] + Cells[j + 1..])
      ensures Contents == old(Contents[..j] + Contents[j + 1..])
      ensures tamanho == old(tamanho) - 1
    {
      ghost var cs, xs := Cells, Contents;
      assert anterior.proximo == cs[j];
      var atual := anterior.proximo;
      assert atual.proximo == if j + 1 < |cs| then cs[j + 1] else null;
      anterior.proximo := atual.proximo;
      ultimo, tamanho := if atual == ultimo then anterior else ultimo, tamanho - 1;
      Cells, Contents, Repr := cs[..j] + cs[j + 1..], xs[..j] + xs[j + 1..], Repr - {atual};
      forall i | 0 <= i < |cs| && i != j - 1
        ensures cs[i].proximo == old(cs[i].proximo) && cs[i].item == old(cs[i].item)
      {
        assert cs[i] != anterior;
      }
      SpliceKeepsValid(cs, xs, j);
    }

    /** After the splice of `RemoverSeguinte`, the shortened chain is again valid. */
    lemma SpliceKeepsValid(cs: seq<Celula<T>>, xs: seq<T>, j: nat)
      requires 0 < j < |cs| == |xs| && tamanho == |cs| - 1
      requires Cells == cs[..j] + cs[j + 1..] && Contents == xs[..j] + xs[j + 1..]
      requires primeiro in Repr && primeiro.proximo == cs[0]
      requires forall i :: 0 <= i < |cs| && i != j ==> cs[i] in Repr && cs[i] != primeiro
      requires forall a, b :: 0 <= a < b < |cs| ==> cs[a] != cs[b]
      requires forall i :: 0 <= i < |cs| - 1 && i != j - 1 && i != j ==> cs[i].proximo == cs[i + 1]
      requires cs[j - 1].proximo == if j + 1 < |cs| then cs[j + 1] else null
      requires j < |cs| - 1 ==> cs[|cs| - 1].proximo == null
      requires ultimo == if j == |cs| - 1 then cs[j - 1] else cs[|cs| - 1]
      requires forall i :: 0 <= i < |cs| && i != j ==> cs[i].item == Some(xs[i])
      ensures Valid()
    {
      forall i | 0 <= i < |Cells|
        ensures Cells[i] == if i < j then cs[i] else cs[i + 1]
      {
      }
      forall i | 0 <= i < |Cells| - 1
        ensures Cells[i].proximo == Cells[i + 1]
      {
        if i != j - 1 {
          assert Cells[i] == if i < j then cs[i] else cs[i + 1];
        }
      }
    }

    /**
     Overwrites the item of the `j`-th data cell in place: the write the hash
     table performs through a cell it reached by walking the chain.
     */
    method SubstituirItem(c: Celula<T>, ghost j: nat, x: T)
      requires Valid() && j < |Cells| && c == Cells[j]
      modifies this`Contents, c`item
      ensures Valid() && Contents == old(Contents)[j := x]
    {
      c.SetItem(Some(x));
      Contents := Contents[j := x];
    }

    /** `tamanho()`: the number of stored items. */
    method Tamanho() returns (n: int)
      requires Valid()
      ensures n == tamanho == |Contents|
    {
      n := tamanho;
    }

    /**
     `toString()`: "Lista vazia" for an empty list, otherwise every item,
     rendered by its `toString`, followed by a line break, oldest first.
     */
    method ToString(render: T -> string) returns (s: string)
      requires Valid()
      ensures s == if Contents == [] then "Lista vazia" else Lines(Contents, render)
    {
      var vazia := Vazia();
      if vazia {
        return "Lista vazia";
      }
      s := "";
      var atual := primeiro.GetProximo();
      var i := 0;
      while atual != null
        invariant 0 <= i <= |Cells|
        invariant atual == if i < |Cells| then Cells[i] else null
        invariant s == Lines(Contents[..i], render)
        decreases |Cells| - i
      {
        var item := atual.GetItem();
        LinesSnoc(Contents[..i], Contents[i], render);
        assert Contents[..i + 1] == Contents[..i] + [Contents[i]];
        s := s + render(item.value) + "\n";
        atual := atual.GetProximo();
        i := i + 1;
      }
      assert Contents[..i] == Contents;
    }
  }
}
