/**
 The interior removal of src/TabelaHash.java as written: the cell before the
 key's entry is re-linked past it (`anterior.setProximo(atual.getProximo())`)
 and nothing else of the bucket's list changes. When the unlinked cell was
 the list's last one, `ultimo` keeps pointing at it, so the next `inserir`
 into that bucket hangs its new cell behind a cell the chain no longer
 reaches, and the list's own `tamanho` counts entries the chain does not hold.

 `RemocaoInteriorComoEscrita` replays that sequence on a bucket holding the
 keys 1 and 2; `RemocaoInteriorCorrigida` replays it with the splice that
 also moves `ultimo` and decrements `tamanho` (`Lista.RemoverSeguinte`),
 which the table model uses.
 */
module Emenda {
  import opened Comum
  import opened Celulas
  import opened Listas
  import opened Espalhamento

  /**
   Bucket [1 -> 10, 2 -> 20]; key 2 removed by the splice as written; then
   3 -> 30 inserted. The chain from the sentinel ends after 1 -> 10: the
   inserted entry is unreachable, so a search for key 3 misses it, while the
   list claims three entries.
   */
  method RemocaoInteriorComoEscrita() returns (l: Lista<Entrada<int, int>>)
    ensures l.primeiro.proximo != null && l.primeiro.proximo.item == Some(Entrada(1, 10))
    ensures l.tamanho == 3
    // the walk of `pesquisar(3)`, from the sentinel's successor to null, meets
    // one cell, and it does not hold key 3
    ensures l.primeiro.proximo.proximo == null && l.primeiro.proximo.item.value.chave != 3
    // while the cell holding it is `ultimo`, off the chain
    ensures l.ultimo.item == Some(Entrada(3, 30)) && l.ultimo != l.primeiro && l.ultimo != l.primeiro.proximo
  {
    l := new Lista<Entrada<int, int>>();
    l.Inserir(Entrada(1, 10));
    l.Inserir(Entrada(2, 20));
    var anterior := l.primeiro.GetProximo();
    var atual := anterior.GetProximo();
    // remover(2), interior case: only the predecessor's link changes
    var seguinte := atual.GetProximo();
    anterior.SetProximo(seguinte);
    // inserir(3, 30) on the same list: Lista.inserir, step by step
    var nova := new Celula<Entrada<int, int>>(Entrada(3, 30));
    l.ultimo.SetProximo(nova);
    l.ultimo := nova;
    l.tamanho := l.tamanho + 1;
  }

  /**
   The same sequence with the corrected splice: the list stays valid and
   holds exactly 1 -> 10 and 3 -> 30, in that order.
   */
  method RemocaoInteriorCorrigida() returns (l: Lista<Entrada<int, int>>)
    ensures l.Valid() && l.Contents == [Entrada(1, 10), Entrada(3, 30)] && l.tamanho == 2
    ensures l.primeiro.proximo != null && l.primeiro.proximo.proximo != null
    ensures l.primeiro.proximo.proximo.item == Some(Entrada(3, 30))
  {
    l := new Lista<Entrada<int, int>>();
    l.Inserir(Entrada(1, 10));
    l.Inserir(Entrada(2, 20));
    var anterior := l.primeiro.GetProximo();
    l.RemoverSeguinte(anterior, 1);
    l.Inserir(Entrada(3, 30));
  }
}
