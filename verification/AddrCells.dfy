/**
The two tables of the address manager as flat arrays, row after row of buckets.
*/
module AddrCells {
  import opened AddrState

  // A slot holds an id, or -1 when it is empty.
  type Cell = n: int | n >= -1

  // The slots of a flat table that are filled.
  ghost function TableOf(a: seq<Cell>): Table {
    map slot: nat | slot < |a| && a[slot] >= 0 :: a[slot]
  }

  lemma TableSet(a: seq<Cell>, slot: nat, id: nat)
    requires slot < |a|
    ensures TableOf(a[slot := id]) == TableOf(a)[slot := id]
  {
  }

  lemma TableClear(a: seq<Cell>, slot: nat)
    requires slot < |a|
    ensures TableOf(a[slot := -1]) == TableOf(a) - {slot}
  {
  }

  // One more slot.
  lemma TableSnoc(a: seq<Cell>, k: nat)
    requires k < |a|
    ensures k !in TableOf(a[..k])
    ensures TableOf(a[..k + 1]) == if a[k] >= 0 then TableOf(a[..k])[k := a[k]] else TableOf(a[..k])
  {
  }
}
