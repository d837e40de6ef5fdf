# Three maps: unbalanced search tree, AVL tree, chained hash table

The repository implements one mapping interface (insert, search, remove,
size, traversal, and a comparison counter for the last search) in three
ways:

- `ABB` is an unbalanced binary search tree ordered by a comparator.
- `AVL` is the same tree, with cached heights and rotations that keep it
  height-balanced.
- `TabelaHash` is a fixed-capacity hash table with separate chaining. Each
  bucket is a `Lista`: a singly linked list of `Celula` cells behind a
  sentinel, holding `Entrada` key/value pairs.

This project models those classes in Dafny:

- `comum.dfy`: shared vocabulary. `Option` stands for Java's `null`,
  `Result` for a thrown exception, `int32` for Java's `int`. It also holds
  the comparator contract and the line-per-element text that the
  traversals build.
- `nos.dfy`: the tree node as a value, with the views the trees are
  specified against: the map a tree stands for, its keys, its in-order
  sequence, its height and the search-tree order. It also holds the code
  both trees share: the recursive search, `encontrarMenor` and the in-order
  walk.
- `abb.dfy`: the recursive `inserir`, `remover` and `copiarArvore` of
  `ABB` as functions on node values, with their correctness lemmas. The
  class `ABB` keeps the fields the Java class updates.
- `avl.dfy`: `setAltura`, the balance factor, both rotations, `balancear`
  and the rebalancing `inserir`/`remover`. The lemmas prove that the AVL
  invariant (order, cached heights, balance) is preserved. The class `AVL`
  keeps the fields the Java class updates.
- `celula.dfy` and `lista.dfy`: the heap cell and the list with sentinel,
  last-cell pointer and size, as classes. Ghost `Cells`/`Contents`/`Repr`
  describe the chain.
- `espalhamento.dfy`: the hash index and the bucket operations as
  functions on sequences of entries, with their map-level specification.
- `tabela_hash.dfy`: the class `TabelaHash` over an `array` of lists. A
  ghost `Buckets` holds the bucket contents. Every operation is proved
  against the bucket functions.
- `emenda.dfy`: the interior-removal defect of `TabelaHash.remover`,
  replayed as written and as corrected.

The hash-table capacity is fixed. `inserir` on the table returns the
updated size. `pesquisar` on the table returns `None` for an absent key,
where the trees throw `NoSuchElementException`; the model keeps this
difference.

The bucket index is `Math.abs(hashCode % capacidade)`: Java's truncating
remainder first, then the absolute value (`Espalhamento.Hash`). Taking the
absolute value of the hash code first would overflow for
`Integer.MIN_VALUE`; the code's order never does. On unbounded integers
both orders give the same index: `Espalhamento.HashInRange` proves that the
index equals `abs(hashCode) mod capacidade` for every `int32`.

## Model

| member | source | states |
|---|---|---|
| Nos.Search | src/ABB.java:103-125 | the recursive search as a function on node values; its result is stated by `Nos.SearchFinds`, `Nos.SearchCost` and `ArvoreABB.SearchMissDepth` |
| Nos.SearchFinds | src/ABB.java:103-125 | the recursive `pesquisar` on a search tree finds the item mapped to a present key and nothing for an absent one |
| Nos.SearchCost | src/ABB.java:103-125 | the comparisons counted equal the depth of the key's node on a hit (never more than the height); always between 1 and the height plus one |
| ArvoreABB.SearchMissDepth | src/ABB.java:103-125 | on a miss the comparisons counted equal exactly the depth at which `inserir` would hang the missing key: the nodes on the search path plus the empty subtree that ends it |
| Nos.Leftmost | src/ABB.java:278-283 | the node `encontrarMenor` reaches, with no left child; `Nos.LeftmostIsMinimum` states that it holds the least key |
| Nos.LeftmostIsMinimum | src/ABB.java:278-283 | the leftmost node of a search tree holds its least key (every other key compares greater) and that key's item |
| Nos.EncontrarMenor | src/ABB.java:278-283 | the loop stops at a node without a left child; it is the leftmost node, and on a search tree it holds the least key |
| Nos.InOrderSorted | src/ABB.java:190-208 | the in-order walk of a search tree lists keys in strictly increasing comparator order |
| Nos.InOrderText | src/ABB.java:190-208 | the recursive walk's text; `Nos.InOrderTextLines` states its layout |
| Nos.InOrderTextLines | src/ABB.java:190-208 | the text of the recursive walk is every item's text followed by a line break, in in-order position |
| Nos.InOrderKeys | src/ABB.java:190-208 | the walk visits each node once (as many entries as nodes) and lists only keys of the tree |
| Nos.InOrderItem | src/ABB.java:190-208 | on a search tree, the pair the walk lists at any position is a stored key with the item the map holds for it |
| Nos.InOrderListsKey | src/ABB.java:190-208 | every stored key appears at some position of the walk |
| Nos.InOrderIsMap | src/ABB.java:190-208 | on a search tree the walk lists exactly the stored map: every pair is a stored key with its item, and no stored key is missing |
| Nos.SizeIsKeyCount | src/ABB.java:286-288 | on a search tree the node count equals the number of distinct keys |
| Nos.RemoveOneChildCase | src/ABB.java:249-254 | a matched node with at most one child is replaced by that child: the rest of the map stays, still ordered, with one node fewer |
| Nos.RemoveSuccessor | src/ABB.java:256-267 | a matched node with two children takes the successor's key and item, and removing the successor from the right subtree leaves exactly the map without the key |
| ArvoreABB.Insert | src/ABB.java:147-169 | the recursive insertion on node values; `ArvoreABB.InsertCorrect` states its result |
| ArvoreABB.InsertCorrect | src/ABB.java:147-169 | insertion keeps the search-tree order, maps the key to the new item, keeps every other pair, and runs `tamanho++` (adds a node) exactly when the key was absent |
| ArvoreABB.InsertExistingKeepsShape | src/ABB.java:163-166 | inserting a present key only overwrites that node's item; nodes, keys and heights are unchanged |
| ArvoreABB.InsertNewIsLeaf | src/ABB.java:149-153 | an absent key ends up in a new leaf holding the key and item |
| ArvoreABB.Remove | src/ABB.java:230-271 | the recursive removal on node values, counting its `tamanho--`; `ArvoreABB.RemoveCorrect` states its result |
| ArvoreABB.RemoveCorrect | src/ABB.java:230-271 | removal throws `NoSuchElementException` exactly when the key is absent; otherwise it returns the key's item, keeps the order and drops exactly that key, with one node fewer |
| ArvoreABB.RemoveDecrementsAsWritten | src/ABB.java:244-268 | as written, `tamanho--` runs twice when the removed node has two children and once otherwise |
| ArvoreABB.RemoveLeftmostOnce | src/ABB.java:249-254 | removing the least key (the successor) runs `tamanho--` once |
| ArvoreABB.RemoveRootCountsTwice | src/ABB.java:247 | inserting 2, 1, 3 and removing 2 leaves two nodes while `tamanho` falls by two |
| ArvoreABB.Copy | src/ABB.java:67-77 | the recursive copy on node values; `ArvoreABB.CopyCorrect` states its result |
| ArvoreABB.CopyCorrect | src/ABB.java:67-77 | the copy is a search tree whose map is the destination's map updated, in in-order position, with every original item under its extracted key |
| ArvoreABB.ABB.constructor | src/ABB.java:21-25 | a new tree is empty, with size 0 and the given comparator |
| ArvoreABB.ABB.Vazia | src/ABB.java:85-87 | true exactly when the root is null, that is, when the map is empty |
| ArvoreABB.ABB.Pesquisar | src/ABB.java:95-101 | returns the key's item or `NoSuchElementException`; the counter is reset and then equals the depth of the key's node on a hit and, on a miss, the depth at which the key would be inserted; between 1 and height + 1 always |
| ArvoreABB.ABB.Inserir | src/ABB.java:135-138 | the map becomes the old map with the key set to the item; `tamanho` grows by one exactly when the key was new; the returned value is the new size; the order is kept; a present key leaves the shape as it was |
| ArvoreABB.ABB.Remover | src/ABB.java:216-221 | an absent key throws and changes nothing; a present key's item is returned, only that key is dropped, and `tamanho` falls by one (corrected) |
| ArvoreABB.ABB.Tamanho | src/ABB.java:286-288 | the size equals the number of stored keys |
| ArvoreABB.ABB.GetComparacoes | src/ABB.java:291-293 | returns the count left by the last search |
| ArvoreABB.ABB.CaminhamentoEmOrdem | src/ABB.java:172-183 | every item followed by a line break, in strictly increasing key order; each listed pair is a stored key with its own item, and every stored key is listed |
| ArvoreAVL.SetAltura | src/AVL.java:82 | `setAltura()` (the node class is not part of this model): one more than the larger child height; `ArvoreAVL.CachedHeight` states that where it is cached everywhere it is the real height |
| ArvoreAVL.Fator | src/AVL.java:87 | `getFatorBalanceamento()`: left height minus right height; `ArvoreAVL.BalancearCorrect` states what `balancear` does with it |
| ArvoreAVL.RotacionarDireita | src/AVL.java:108-119 | the result is a node, and heights are cached correctly whenever they were in the two subtrees |
| ArvoreAVL.RotacionarEsquerda | src/AVL.java:121-132 | the result is a node, and heights are cached correctly whenever they were in the two subtrees |
| ArvoreAVL.RotacionarDireitaCorrect | src/AVL.java:108-119 | a right rotation keeps the in-order sequence, the map, the node count and the search-tree order |
| ArvoreAVL.RotacionarEsquerdaCorrect | src/AVL.java:121-132 | a left rotation keeps the in-order sequence, the map, the node count and the search-tree order |
| ArvoreAVL.Balancear | src/AVL.java:86-106 | the result is a node with correctly cached heights |
| ArvoreAVL.BalancearCorrect | src/AVL.java:86-106 | on a node whose balanced subtrees differ in height by at most two, the result is balanced; it keeps the in-order sequence, map, count and order; a balanced node is returned unchanged; the height drops by at most one |
| ArvoreAVL.DoubleRightBalanced | src/AVL.java:90-94 | the left-right case (left child leaning right) yields a balanced subtree one level lower |
| ArvoreAVL.DoubleLeftBalanced | src/AVL.java:98-102 | the right-left case (right child leaning left) yields a balanced subtree one level lower |
| ArvoreAVL.Insert | src/AVL.java:65-84 | the new subtree root has correctly cached heights |
| ArvoreAVL.InsertCorrect | src/AVL.java:65-84 | insertion keeps the AVL invariant (order, heights, balance), maps the key to the item, keeps every other pair, adds a node exactly when the key was absent, and raises the height by at most one |
| ArvoreAVL.InsertExistingInPlace | src/AVL.java:77-80 | for a present key the balanced insertion returns exactly what the unbalanced one returns: no height update, no rotation |
| ArvoreAVL.InsertExistingKeepsShape | src/AVL.java:77-80 | inserting a present key keeps nodes, keys and heights and puts the new item in that key's node |
| ArvoreAVL.Remove | src/AVL.java:143-173 | a successful removal returns a subtree with correctly cached heights |
| ArvoreAVL.RemoveCorrect | src/AVL.java:143-173 | removal throws exactly when the key is absent; otherwise it returns its item, keeps the AVL invariant, drops exactly that key, with one node fewer, and lowers the height by at most one |
| ArvoreAVL.RemoveDecrementsAsWritten | src/AVL.java:153-168 | as written, `tamanho--` runs twice when the removed node has two children and once otherwise |
| ArvoreAVL.RemoveLeftmostOnce | src/AVL.java:157-160 | removing the least key runs `tamanho--` once |
| ArvoreAVL.AVL.constructor | src/AVL.java:14-18 | a new tree is empty, with size 0 and the given comparator |
| ArvoreAVL.AVL.Vazia | src/AVL.java:29-31 | true exactly when the map is empty |
| ArvoreAVL.AVL.Pesquisar | src/AVL.java:34-40 | returns the key's item or `NoSuchElementException`; the counter equals the depth of the key's node on a hit and, on a miss, the depth at which an unbalanced insertion would hang the key (the search path plus the empty subtree); between 1 and height + 1 always |
| ArvoreAVL.AVL.Inserir | src/AVL.java:60-63 | the tree stays an AVL tree; the key maps to the item and other pairs are kept; `tamanho` grows by one exactly when the key was new; a present key leaves the shape as it was; the new size is returned |
| ArvoreAVL.AVL.Remover | src/AVL.java:135-140 | an absent key throws and changes nothing; a present key's item is returned, only that key is dropped, the tree stays AVL, and `tamanho` falls by one (corrected) |
| ArvoreAVL.AVL.Tamanho | src/AVL.java:209-211 | the size equals the number of stored keys |
| ArvoreAVL.AVL.GetComparacoes | src/AVL.java:214-216 | returns the count left by the last search |
| ArvoreAVL.AVL.CaminhamentoEmOrdem | src/AVL.java:183-189 | every item followed by a line break, in strictly increasing key order; each listed pair is a stored key with its own item, and every stored key is listed |
| Celulas.Celula.Vazia | src/Celula.java:6-9 | the sentinel cell has no item and no successor |
| Celulas.Celula.constructor | src/Celula.java:11-14 | a new cell holds the item and has no successor |
| Celulas.Celula.GetItem | src/Celula.java:16-18 | returns the stored item |
| Celulas.Celula.SetItem | src/Celula.java:20-22 | replaces the item and leaves the link alone |
| Celulas.Celula.GetProximo | src/Celula.java:24-26 | returns the successor |
| Celulas.Celula.SetProximo | src/Celula.java:28-30 | replaces the link and leaves the item alone |
| Listas.Lista.constructor | src/Lista.java:7-11 | a new list is empty: the sentinel is also the last cell, and the size is 0 |
| Listas.Lista.Vazia | src/Lista.java:13-15 | first cell == last cell exactly when the list holds nothing |
| Listas.Lista.Inserir | src/Lista.java:17-22 | appends the item at the end of the contents, size + 1, the list stays well formed |
| Listas.Lista.Remover | src/Lista.java:24-39 | an empty list throws `IllegalStateException` and is unchanged; otherwise the head item is returned and dropped, size - 1, and the last pointer returns to the sentinel when the list empties |
| Listas.Lista.RemoverSeguinte | src/TabelaHash.java:95-99 | unlinking the cell after a given one drops exactly that entry, moves the last pointer when the last cell goes, and decrements the size (the corrected splice) |
| Listas.Lista.SubstituirItem | src/TabelaHash.java:40 | writing a new entry into a cell replaces exactly that position of the contents |
| Listas.Lista.Tamanho | src/Lista.java:41-43 | the size equals the number of entries held |
| Listas.Lista.ToString | src/Lista.java:45-60 | "Lista vazia" for an empty list, otherwise every item followed by a line break, head to tail |
| Espalhamento.JavaRem | src/TabelaHash.java:28 | Java's `%`: the remainder differs from the dividend by a multiple of the divisor, is strictly below the divisor in absolute value and takes the sign of the dividend, which determines it |
| Espalhamento.Hash | src/TabelaHash.java:27-29 | `Math.abs(hashCode % capacidade)`; `Espalhamento.HashInRange` states its range and value |
| Espalhamento.HashInRange | src/TabelaHash.java:27-29 | the index lies in `[0, capacidade)` and equals `abs(hashCode) mod capacidade` |
| Espalhamento.Find | src/TabelaHash.java:36-44 | the position found holds the key and no earlier entry does; none means no entry holds the key |
| Espalhamento.FindUnique | src/TabelaHash.java:36-44 | in a bucket without repeated keys, the scan finds the only position that holds the key |
| Espalhamento.Put | src/TabelaHash.java:36-49 | a bucket after `inserir`: the value overwritten at the key's position, or the pair appended; `Espalhamento.PutCorrect` states its result |
| Espalhamento.Delete | src/TabelaHash.java:88-106 | a bucket after `remover`: the pair holding the key dropped; `Espalhamento.DeleteCorrect` states its result |
| Espalhamento.PutCorrect | src/TabelaHash.java:32-50 | overwrite-or-append keeps keys unique, maps the key to the value, keeps every other key, and adds an entry exactly when the key was absent |
| Espalhamento.DeleteCorrect | src/TabelaHash.java:80-109 | removal keeps keys unique, unmaps the key, keeps every other key, and drops an entry exactly when the key was present |
| Espalhamento.KeysUnique | src/TabelaHash.java:27-29 | in a table where every entry sits in its key's bucket with no repeats, a key occurs at most once in the whole table |
| Espalhamento.PutPlaced | src/TabelaHash.java:32-50 | inserting into the key's bucket keeps every entry in its bucket; the table maps the key to the value and every other key as before |
| Espalhamento.DeletePlaced | src/TabelaHash.java:80-109 | removing from the key's bucket keeps every entry in its bucket; the table unmaps the key and keeps every other key |
| Espalhamento.EmptyTable | src/TabelaHash.java:13-21 | a table of empty buckets is well placed, counts no entries and maps no key |
| Tabela.TabelaHash.constructor | src/TabelaHash.java:13-21 | `capacidade` empty buckets, size 0, every lookup absent |
| Tabela.TabelaHash.Padrao | src/TabelaHash.java:23-25 | the same with capacity 101 |
| Tabela.TabelaHash.Preencher | src/TabelaHash.java:18-20 | every slot receives its own fresh empty list, distinct lists with disjoint cells |
| Tabela.TabelaHash.Pendurar | src/TabelaHash.java:19 | one step of that loop: slot `i` receives a fresh empty list, distinct from and sharing no cell with the lists already placed |
| Tabela.TabelaHash.Indice | src/TabelaHash.java:27-29 | the bucket index lies in range and equals `abs(hashCode) mod capacidade` |
| Tabela.TabelaHash.ObterPrimeiraCelula | src/TabelaHash.java:149-160 | the first cell after the sentinel, or null for an empty list |
| Tabela.TabelaHash.Procurar | src/TabelaHash.java:88-106 | the scan stops at the first cell holding the key (with its predecessor, and the count of cells examined), or at the end when no cell holds it |
| Tabela.TabelaHash.Inserir | src/TabelaHash.java:32-50 | the key's bucket becomes overwrite-or-append of the pair, the other buckets are unchanged, the size grows by one exactly when the key was absent, and the new size is returned |
| Tabela.TabelaHash.SubstituirValor | src/TabelaHash.java:39-42 | a present key's entry is overwritten in place; size and cells unchanged |
| Tabela.TabelaHash.Acrescentar | src/TabelaHash.java:47-49 | an absent key is appended to its bucket, size + 1 |
| Tabela.TabelaHash.Pesquisar | src/TabelaHash.java:53-77 | returns the table's value for the key or `None`; the counter is reset and equals the position of the hit plus one, or the bucket length on a miss |
| Tabela.TabelaHash.Consultar | src/TabelaHash.java:57-76 | the read-only scan returns the same value and the number of entries examined |
| Tabela.TabelaHash.Remover | src/TabelaHash.java:80-109 | the key's bucket becomes the bucket without the key; an absent key throws `NoSuchElementException`; a present key's value is returned and the size falls by one (an interior entry is unlinked by the corrected splice) |
| Tabela.TabelaHash.Desligar | src/TabelaHash.java:95-101 | head or interior unlinking (the corrected splice) of the found cell drops exactly that entry from the bucket, size - 1 |
| Tabela.TabelaHash.Percorrer | src/TabelaHash.java:117-131 | every entry followed by a line break, bucket by bucket, in chain order |
| Tabela.TabelaHash.Escrever | src/TabelaHash.java:122-126 | appends every entry of one chain, each followed by a line break |
| Tabela.TabelaHash.Tamanho | src/TabelaHash.java:112-114 | the size equals the number of entries in all buckets |
| Tabela.TabelaHash.GetComparacoes | src/TabelaHash.java:134-136 | returns the count left by the last search |
| Emenda.RemocaoInteriorComoEscrita | src/TabelaHash.java:98 | after the interior splice as written and a new insertion, the chain ends after the first entry, so the walk of a search for key 3 meets no cell holding it, while the new cell sits at `ultimo`, off the chain; the list claims three entries |
| Emenda.RemocaoInteriorCorrigida | src/TabelaHash.java:95-99 | with the corrected splice the same sequence leaves a well-formed list holding exactly the two expected entries |

## Left out

- `getTempo` and the `inicio`/`termino` timestamps from `System.nanoTime()`: clock reads are not modelled.
- `App.java` and `Fornecedor.java` (command-line I/O and the record type) are not part of this model.
- The `IMapeamento` interface and `Entrada.java` are not part of this model. `Entrada` is a value pair. The in-place `setValor` at src/TabelaHash.java:40 is modelled as writing a new pair into the cell; no reference to an entry leaves the table.
- The tree node class `No` is not part of this model. Nodes are values, not heap objects. Each node belongs to exactly one parent, so only object identity is lost.
- `compare`, `hashCode`, `equals` and `toString` are parameters:
  - `cmp` is assumed to be a total order consistent with equality, as natural order is for the `Integer` and `String` keys the repository uses;
  - `hashCode` is an arbitrary function into `int32`;
  - key equality is Dafny equality;
  - `render` produces an item's text.
- `ABB()` and `AVL()` with the natural-order comparator are not modelled separately: the comparator is always passed in.
- The copy constructor `ABB(original, funcaoChave)` is modelled only through `copiarArvore` (`ArvoreABB.Copy`, `ArvoreABB.CopyCorrect`). The constructor itself keeps only the copied root, leaving `comparador` and `tamanho` unset. It is not modelled as a class constructor.
- `obterPrimeiraCelula` reads the private sentinel by reflection. Its `catch` branch, which returns null, cannot be taken in this model.
- Java `null` keys and items are not modelled. An absent result is `None`, and a thrown exception is `Failure`.
- `tamanho` and `comparacoes` are unbounded integers. A 32-bit `int` or 64-bit `long` overflow is not modelled.
- Tabela.TabelaHash.constructor: `capacidade <= 0` is excluded by a precondition. In Java, a negative capacity throws at array creation and zero makes `hash` divide by zero.
- Tabela.TabelaHash.Inserir: it does not promise that the cells it adds are fresh, and the table's footprint `Repr` keeps cells that were unlinked.
- Concurrent use of one instance is not modelled; the classes are single-threaded.

## Findings

| source | as written | input that shows it | evidently intended | confidence | as-written member | corrected member |
|---|---|---|---|---|---|---|
| src/ABB.java:247 | `tamanho--` runs at the matched node and runs again inside the recursive call that deletes the successor (line 267) | keys 2, 1, 3 inserted in that order, then `remover(2)`: the tree keeps 2 nodes while `tamanho` goes from 3 to 1 | one decrement per removed key | not executed | ArvoreABB.RemoveRootCountsTwice | ArvoreABB.ABB.Remover |
| src/AVL.java:155 | the same double `tamanho--` when the removed node has two children (recursive call at line 167) | any present key whose node has two children, e.g. the root of the tree built from 2, 1, 3 | one decrement per removed key | not executed | ArvoreAVL.RemoveDecrementsAsWritten | ArvoreAVL.AVL.Remover |
| src/TabelaHash.java:98 | removing a non-head entry only re-links the predecessor; the list's `ultimo` and `tamanho` are left as they were | a bucket holding keys 1 and 2, `remover(2)`, then `inserir(3, 30)` into the same bucket: the new cell hangs behind the unlinked one, and `pesquisar(3)` misses it | the splice also moves `ultimo` back when the last cell goes and decrements the list's size | not executed | Emenda.RemocaoInteriorComoEscrita | Listas.Lista.RemoverSeguinte |
