/**
 Orders on strings: the byte order of file names, or the collation of a database.
 Strings being countable, every strict total order on them is the order of an
 injective rank in the reals.
 */
module StringOrder {
  type Order = string -> real

  ghost predicate StrictTotalOrder(rank: Order) {
    forall a, b :: rank(a) == rank(b) ==> a == b
  }

  predicate Less(rank: Order, a: string, b: string) {
    rank(a) < rank(b)
  }

  ghost predicate Increasing(rank: Order, ids: seq<string>) {
    forall i, j :: 0 <= i < j < |ids| ==> Less(rank, ids[i], ids[j])
  }
}
