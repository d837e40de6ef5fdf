/**
 The cell of src/Celula.java: one item (absent, Java's `null`, in the
 sentinel cell a list starts with) and a link to the next cell.
 */
module Celulas {
  import opened Comum

  class Celula<T> {
    var item: Option<T>
    var proximo: Celula?<T>

    /** `Celula()`: the item and the link are both null. */
    constructor Vazia()
      ensures item == None && proximo == null
    {
      item := None;
      proximo := null;
    }

    /** `Celula(item)`: holds the item, with no next cell. */
    constructor (item: T)
      ensures this.item == Some(item) && proximo == null
    {
      this.item := Some(item);
      proximo := null;
    }

    /** `getItem()`: the item held. */
    method GetItem() returns (x: Option<T>)
      ensures x == item
    {
      x := item;
    }

    /** `setItem(item)`: replaces the item; the link is untouched. */
    method SetItem(x: Option<T>)
      modifies this`item
      ensures item == x && proximo == old(proximo)
    {
      item := x;
    }

    /** `getProximo()`: the next cell, or null. */
    method GetProximo() returns (p: Celula?<T>)
      ensures p == proximo
    {
      p := proximo;
    }

    /** `setProximo(proximo)`: relinks the cell; the item is untouched. */
    method SetProximo(p: Celula?<T>)
      modifies this`proximo
      ensures proximo == p && item == old(item)
    {
      proximo := p;
    }
  }
}
