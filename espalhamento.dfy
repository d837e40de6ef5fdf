/**
 The value-level view of the hash table of src/TabelaHash.java: the bucket
 index computed from a key's `hashCode`, and each bucket as the sequence of
 its key/value pairs in chain order (head first). The class in
 tabela_hash.dfy is specified against these functions.
 */
module Espalhamento {
  import opened Comum

  /**
   A key/value entry of a bucket. (src/Entrada.java is not part of this
   model; its use in src/TabelaHash.java fixes this shape.)
   */
  datatype Entrada<K, V> = Entrada(chave: K, valor: V)

  /** A multiple of `b` leaves no remainder. */
  lemma MultipleMod(q: int, b: int)
    requires b > 0
    ensures (q * b) % b == 0
  {
    var x := q * b;
    var k := q - x / b;
    assert x == b * (x / b) + x % b;
    assert x % b == b * k;
    if k > 0 {
      assert b * k == b + b * (k - 1);
    } else if k < 0 {
      assert b * k == -b + b * (k + 1);
    }
  }

  /**
   Java's `%` on `int`: truncates toward zero, so the remainder takes the
   sign of the dividend; `a` and the remainder differ by a multiple of `b`,
   which with the bound and the sign fixes the remainder.
   */
  function JavaRem(a: int, b: int): (r: int)
    requires b > 0
    ensures -b < r < b
    ensures a >= 0 ==> r >= 0
    ensures a <= 0 ==> r <= 0
    ensures (a - r) % b == 0
  {
    if a >= 0 then
      MultipleMod(a / b, b);
      assert a - a % b == (a / b) * b;
      a % b
    else
      MultipleMod(-((-a) / b), b);
      assert a + (-a) % b == -((-a) / b) * b;
      -((-a) % b)
  }

  function Abs(x: int): int
  {
    if x < 0 then -x else x
  }

  /** `hash(chave)`: `Math.abs(chave.hashCode() % capacidade)`. */
  function Hash(h: int32, capacidade: int): int
    requires capacidade > 0
  {
    Abs(JavaRem(h as int, capacidade))
  }

  /**
   The bucket index is always a valid position of the table, and it is the
   remainder of the hash code's magnitude: Java's truncating `%` followed by
   `Math.abs` never produces the negative or out-of-range index a floored
   remainder of a negative hash code would be confused with.
   */
  lemma HashInRange(h: int32, capacidade: int)
    requires capacidade > 0
    ensures 0 <= Hash(h, capacidade) < capacidade
    ensures Hash(h, capacidade) == Abs(h as int) % capacidade
  {
  }

  // ---------------------------------------------------------------------
  // One bucket
  // ---------------------------------------------------------------------

  /** Position of the first pair with key `k`, scanning from the head. */
  function Find<K(==), V>(b: seq<Entrada<K, V>>, k: K): (r: Option<nat>)
    ensures r.Some? ==> r.value < |b| && b[r.value].chave == k
    ensures r.Some? ==> forall j :: 0 <= j < r.value ==> b[j].chave != k
    ensures r.None? ==> forall j :: 0 <= j < |b| ==> b[j].chave != k
  {
    FindFrom(b, k, 0)
  }

  /** Position of the first pair with key `k` at or after position `i`. */
  function FindFrom<K(==), V>(b: seq<Entrada<K, V>>, k: K, i: nat): (r: Option<nat>)
    requires i <= |b|
    ensures r.Some? ==> i <= r.value < |b| && b[r.value].chave == k
    ensures r.Some? ==> forall j :: i <= j < r.value ==> b[j].chave != k
    ensures r.None? ==> forall j :: i <= j < |b| ==> b[j].chave != k
    decreases |b| - i
  {
    if i == |b| then None
    else if b[i].chave == k then Some(i)
    else FindFrom(b, k, i + 1)
  }

  /** No key occurs twice in the bucket. */
  ghost predicate NoDup<K, V>(b: seq<Entrada<K, V>>)
  {
    forall i, j :: 0 <= i < j < |b| ==> b[i].chave != b[j].chave
  }

  /** The value stored under `k` in the bucket, if any. */
  function Lookup<K(==), V>(b: seq<Entrada<K, V>>, k: K): Option<V>
  {
    match Find(b, k)
    case None => None
    case Some(j) => Some(b[j].valor)
  }

  /** What `inserir` does to the bucket: overwrite the value in place, or append a new pair. */
  function Put<K(==), V>(b: seq<Entrada<K, V>>, k: K, v: V): seq<Entrada<K, V>>
  {
    match Find(b, k)
    case Some(j) => b[j := Entrada(k, v)]
    case None => b + [Entrada(k, v)]
  }

  /** What `remover` does to the bucket: unlink the pair with key `k`, if there is one. */
  function Delete<K(==), V>(b: seq<Entrada<K, V>>, k: K): seq<Entrada<K, V>>
  {
    match Find(b, k)
    case Some(j) => b[..j] + b[j + 1..]
    case None => b
  }

  /**
   After `Put`, the bucket maps `k` to `v` and every other key as before,
   still without duplicates, and it has one more pair exactly when `k`
   was absent.
   */
  lemma PutCorrect<K, V>(b: seq<Entrada<K, V>>, k: K, v: V)
    requires NoDup(b)
    ensures NoDup(Put(b, k, v))
    ensures forall k' :: Lookup(Put(b, k, v), k') == if k' == k then Some(v) else Lookup(b, k')
    ensures |Put(b, k, v)| == |b| + if Lookup(b, k).None? then 1 else 0
  {
    var p := Put(b, k, v);
    forall k' ensures Lookup(p, k') == if k' == k then Some(v) else Lookup(b, k') {
      match Find(b, k)
      case Some(j) =>
        assert p[j] == Entrada(k, v);
        if k' == k {
          assert Find(p, k') == Some(j);
        } else {
          FindUnique(p, k');
          FindUnique(b, k');
        }
      case None =>
        assert p[|b|] == Entrada(k, v);
        if k' == k {
          assert Find(p, k') == Some(|b|);
        } else {
          FindUnique(p, k');
          FindUnique(b, k');
        }
    }
  }

  /**
   After `Delete`, the bucket has no pair for `k`, maps every other key as
   before, still without duplicates, and it has one pair fewer exactly when
   `k` was present.
   */
  lemma DeleteCorrect<K, V>(b: seq<Entrada<K, V>>, k: K)
    requires NoDup(b)
    ensures NoDup(Delete(b, k))
    ensures forall k' :: Lookup(Delete(b, k), k') == if k' == k then None else Lookup(b, k')
    ensures |Delete(b, k)| == |b| - if Lookup(b, k).Some? then 1 else 0
  {
    var d := Delete(b, k);
    match Find(b, k)
    case None =>
    case Some(j) =>
      assert forall i :: 0 <= i < |d| ==> d[i] == if i < j then b[i] else b[i + 1];
      assert forall i :: 0 <= i < |b| && i != j ==> b[i] == d[if i < j then i else i - 1];
      assert NoDup(d);
      forall k' ensures Lookup(d, k') == if k' == k then None else Lookup(b, k') {
        FindUnique(d, k');
        FindUnique(b, k');
        match Find(d, k')
        case Some(i) =>
          var i' := if i < j then i else i + 1;
          assert b[i'] == d[i];
        case None =>
      }
  }

  /**
   Without duplicates, `Find` is characterised by membership: it returns the
   one position holding the key.
   */
  lemma FindUnique<K, V>(b: seq<Entrada<K, V>>, k: K)
    requires NoDup(b)
    ensures forall j :: 0 <= j < |b| && b[j].chave == k ==> Find(b, k) == Some(j)
  {
  }

  // ---------------------------------------------------------------------
  // The whole table
  // ---------------------------------------------------------------------

  /**
   Every key sits in the bucket its hash code selects, and no bucket holds
   a key twice.
   */
  ghost predicate Placed<K, V>(bs: seq<seq<Entrada<K, V>>>, hashCode: K -> int32)
  {
    && |bs| > 0
    && (forall i, j :: 0 <= i < |bs| && 0 <= j < |bs[i]| ==> Hash(hashCode(bs[i][j].chave), |bs|) == i)
    && (forall i :: 0 <= i < |bs| ==> NoDup(bs[i]))
  }

  /** The value the table stores under `k`: looked up in the bucket `k` hashes to. */
  function Get<K(==), V>(bs: seq<seq<Entrada<K, V>>>, hashCode: K -> int32, k: K): Option<V>
    requires |bs| > 0
  {
    HashInRange(hashCode(k), |bs|);
    Lookup(bs[Hash(hashCode(k), |bs|)], k)
  }

  /**
   In a table that keeps its keys placed, a key occurs at most once in the
   whole table: two positions holding the same key are the same position.
   */
  lemma KeysUnique<K, V>(bs: seq<seq<Entrada<K, V>>>, hashCode: K -> int32, i: nat, j: nat, i': nat, j': nat)
    requires Placed(bs, hashCode)
    requires i < |bs| && j < |bs[i]| && i' < |bs| && j' < |bs[i']|
    requires bs[i][j].chave == bs[i'][j'].chave
    ensures i == i' && j == j'
  {
    assert Hash(hashCode(bs[i][j].chave), |bs|) == i;
    assert Hash(hashCode(bs[i'][j'].chave), |bs|) == i';
    assert NoDup(bs[i]);
  }

  /** Storing `k -> v` in its own bucket keeps the table placed. */
  lemma PutKeepsPlaced<K, V>(bs: seq<seq<Entrada<K, V>>>, hashCode: K -> int32, k: K, v: V)
    requires Placed(bs, hashCode)
    ensures var h := Hash(hashCode(k), |bs|);
      && 0 <= h < |bs|
      && Placed(bs[h := Put(bs[h], k, v)], hashCode)
  {
    var h := Hash(hashCode(k), |bs|);
    HashInRange(hashCode(k), |bs|);
    PutCorrect(bs[h], k, v);
    var bs': seq<seq<Entrada<K, V>>> := bs[h := Put(bs[h], k, v)];
    forall j: int | 0 <= j < |bs'[h]|
      ensures Hash(hashCode(bs'[h][j].chave), |bs|) == h
    {
      match Find(bs[h], k)
      case Some(p) =>
        if j != p { assert bs'[h][j] == bs[h][j]; }
      case None =>
        if j < |bs[h]| { assert bs'[h][j] == bs[h][j]; }
    }
  }

  /**
   Storing `k -> v` in its own bucket keeps the table placed, maps `k` to `v`
   and leaves the value of every other key as it was.
   */
  lemma PutPlaced<K, V>(bs: seq<seq<Entrada<K, V>>>, hashCode: K -> int32, k: K, v: V)
    requires Placed(bs, hashCode)
    ensures var h := Hash(hashCode(k), |bs|);
      && 0 <= h < |bs|
      && var bs' := bs[h := Put(bs[h], k, v)];
      && Placed(bs', hashCode)
      && (forall k' :: Get(bs', hashCode, k') == if k' == k then Some(v) else Get(bs, hashCode, k'))
  {
    var h := Hash(hashCode(k), |bs|);
    PutKeepsPlaced(bs, hashCode, k, v);
    PutCorrect(bs[h], k, v);
    var bs': seq<seq<Entrada<K, V>>> := bs[h := Put(bs[h], k, v)];
    forall k' ensures Get(bs', hashCode, k') == if k' == k then Some(v) else Get(bs, hashCode, k') {
      HashInRange(hashCode(k'), |bs|);
    }
  }

  /** Unlinking `k` from its own bucket keeps the table placed. */
  lemma DeleteKeepsPlaced<K, V>(bs: seq<seq<Entrada<K, V>>>, hashCode: K -> int32, k: K)
    requires Placed(bs, hashCode)
    ensures var h := Hash(hashCode(k), |bs|);
      && 0 <= h < |bs|
      && Placed(bs[h := Delete(bs[h], k)], hashCode)
  {
    var h := Hash(hashCode(k), |bs|);
    HashInRange(hashCode(k), |bs|);
    DeleteCorrect(bs[h], k);
    var bs': seq<seq<Entrada<K, V>>> := bs[h := Delete(bs[h], k)];
    forall j: int | 0 <= j < |bs'[h]|
      ensures Hash(hashCode(bs'[h][j].chave), |bs|) == h
    {
      match Find(bs[h], k)
      case Some(p) =>
        assert bs'[h][j] == if j < p then bs[h][j] else bs[h][j + 1];
      case None =>
    }
  }

  /**
   Unlinking `k` from its own bucket keeps the table placed, leaves no value
   for `k` and the value of every other key as it was.
   */
  lemma DeletePlaced<K, V>(bs: seq<seq<Entrada<K, V>>>, hashCode: K -> int32, k: K)
    requires Placed(bs, hashCode)
    ensures var h := Hash(hashCode(k), |bs|);
      && 0 <= h < |bs|
      && var bs' := bs[h := Delete(bs[h], k)];
      && Placed(bs', hashCode)
      && (forall k' :: Get(bs', hashCode, k') == if k' == k then None else Get(bs, hashCode, k'))
  {
    var h := Hash(hashCode(k), |bs|);
    DeleteKeepsPlaced(bs, hashCode, k);
    DeleteCorrect(bs[h], k);
    var bs': seq<seq<Entrada<K, V>>> := bs[h := Delete(bs[h], k)];
    forall k' ensures Get(bs', hashCode, k') == if k' == k then None else Get(bs, hashCode, k') {
      HashInRange(hashCode(k'), |bs|);
    }
  }

  /** Number of pairs in the whole table. */
  function Count<K, V>(bs: seq<seq<Entrada<K, V>>>): nat
  {
    if bs == [] then 0 else Count(bs[..|bs| - 1]) + |bs[|bs| - 1]|
  }

  /** Replacing one bucket changes the count by the change in that bucket's length. */
  lemma {:induction false} CountUpdate<K, V>(bs: seq<seq<Entrada<K, V>>>, h: nat, b: seq<Entrada<K, V>>)
    requires h < |bs|
    ensures Count(bs[h := b]) == Count(bs) - |bs[h]| + |b|
  {
    var n := |bs| - 1;
    if h == n {
      assert bs[h := b][..n] == bs[..n];
    } else {
      CountUpdate(bs[..n], h, b);
      assert bs[h := b][..n] == bs[..n][h := b];
    }
  }

  /** Every pair of the table, bucket 0 first, each bucket from head to tail. */
  function Flatten<K, V>(bs: seq<seq<Entrada<K, V>>>): seq<Entrada<K, V>>
  {
    if bs == [] then [] else Flatten(bs[..|bs| - 1]) + bs[|bs| - 1]
  }

  /** A table whose buckets are all empty. */
  function EmptyBuckets<K, V>(n: nat): (bs: seq<seq<Entrada<K, V>>>)
    ensures |bs| == n && forall i :: 0 <= i < n ==> bs[i] == []
  {
    seq(n, _ => [])
  }

  /** A table of empty buckets holds nothing: no pairs and no value for any key. */
  lemma {:induction false} EmptyTable<K, V>(n: nat, hashCode: K -> int32)
    requires n > 0
    ensures Placed(EmptyBuckets<K, V>(n), hashCode)
    ensures Count(EmptyBuckets<K, V>(n)) == 0
    ensures forall k :: Get(EmptyBuckets<K, V>(n), hashCode, k) == None
  {
    EmptyCount(EmptyBuckets<K, V>(n));
    forall k ensures Get(EmptyBuckets<K, V>(n), hashCode, k) == None {
      HashInRange(hashCode(k), n);
    }
  }

  lemma {:induction false} EmptyCount<K, V>(bs: seq<seq<Entrada<K, V>>>)
    requires forall i :: 0 <= i < |bs| ==> bs[i] == []
    ensures Count(bs) == 0
  {
    if bs != [] {
      EmptyCount(bs[..|bs| - 1]);
    }
  }
}
