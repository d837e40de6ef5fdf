/**
 Shared vocabulary of the three map implementations: the optional and
 failing results that stand for Java's `null` and exceptions, the 32-bit
 integers of `hashCode`, the comparator contract, and the text layout the
 traversals produce.
 */
module Comum {

  /** A possibly absent value: Java's `null` is `None`. */
  datatype Option<T> = None | Some(value: T)

  /** The exceptions the core throws. */
  datatype Exception =
    | NoSuchElement   // java.util.NoSuchElementException: absent key
    | IllegalState    // java.lang.IllegalStateException: removal from an empty list

  /** The outcome of an operation that either returns a value or throws. */
  datatype Result<T> = Success(value: T) | Failure(error: Exception)

  /** Java's `int`. */
  newtype int32 = x: int | -0x8000_0000 <= x < 0x8000_0000

  function Max(a: int, b: int): int
  {
    if a < b then b else a
  }

  /**
   A comparator in the sense of `java.util.Comparator`, restricted to the
   ones the repository uses (natural order of Integer and String): it is
   consistent with equality, the sign flips when the arguments are swapped,
   and "less than" is transitive.
   */
  ghost predicate TotalOrder<K(!new)>(cmp: (K, K) -> int)
  {
    && (forall a, b :: cmp(a, b) == 0 <==> a == b)
    && (forall a, b :: cmp(a, b) < 0 <==> cmp(b, a) > 0)
    && (forall a, b, c :: cmp(a, b) < 0 && cmp(b, c) < 0 ==> cmp(a, c) < 0)
  }

  /**
   The text the traversals build: each element rendered, each followed by
   a line break, in sequence order.
   */
  function Lines<T>(xs: seq<T>, render: T -> string): string
  {
    if xs == [] then "" else Lines(xs[..|xs| - 1], render) + render(xs[|xs| - 1]) + "\n"
  }

  /** Rendering one more element adds exactly its line at the end. */
  lemma LinesSnoc<T>(xs: seq<T>, x: T, render: T -> string)
    ensures Lines(xs + [x], render) == Lines(xs, render) + render(x) + "\n"
  {
    assert (xs + [x])[..|xs + [x]| - 1] == xs;
  }

  /** The text of a concatenation is the concatenation of the texts. */
  lemma {:induction false} LinesAppend<T>(a: seq<T>, b: seq<T>, render: T -> string)
    ensures Lines(a + b, render) == Lines(a, render) + Lines(b, render)
  {
    if b == [] {
      assert a + b == a;
    } else {
      var b' := b[..|b| - 1];
      assert a + b == (a + b') + [b[|b| - 1]];
      assert b == b' + [b[|b| - 1]];
      LinesAppend(a, b', render);
      LinesSnoc(a + b', b[|b| - 1], render);
      LinesSnoc(b', b[|b| - 1], render);
    }
  }
}
