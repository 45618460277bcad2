/** The two read-only table listings: a single `Where` filter over the
    stored tables each, with no write to the store. */
module TableController {
  import opened Linq
  import opened Models

  /** The tables that can still be reserved. */
  function AvailableSlots(tables: seq<DinningTable>): (r: seq<DinningTable>)
    ensures |r| <= |tables|
    ensures forall t :: t in r <==> t in tables && t.availability
    ensures forall t :: multiset(r)[t] == if t.availability then multiset(tables)[t] else 0
  {
    Where(tables, (t: DinningTable) => t.availability)
  }

  /** The tables that have been reserved. */
  function BookedSlots(tables: seq<DinningTable>): (r: seq<DinningTable>)
    ensures |r| <= |tables|
    ensures forall t :: t in r <==> t in tables && !t.availability
    ensures forall t :: multiset(r)[t] == if t.availability then 0 else multiset(tables)[t]
  {
    Where(tables, (t: DinningTable) => !t.availability)
  }

  /** No table is listed both as available and as booked, and the two
      listings together hold every stored table exactly once per copy. */
  lemma ListingsPartitionTables(tables: seq<DinningTable>)
    ensures forall t :: !(t in AvailableSlots(tables) && t in BookedSlots(tables))
    ensures multiset(AvailableSlots(tables)) + multiset(BookedSlots(tables)) == multiset(tables)
    ensures |AvailableSlots(tables)| + |BookedSlots(tables)| == |tables|
  {
  }
}
