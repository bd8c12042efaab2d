/** Choosing the next address to poll: `OrderBy(x => x.LastUpdated).First()`
    over the address list. The sort is stable, so the first entry of the
    sorted list is the earliest entry, in list order, among those with the
    smallest timestamp; on an empty list First() throws. */
module Selection {
  import opened Optional
  import opened AddressRecord

  /** `i` is where the stalest entry sits: no entry is older, and every
      entry before it is strictly newer. */
  ghost predicate IsOldest(entries: seq<Address>, i: int) {
    && 0 <= i < |entries|
    && (forall j | 0 <= j < |entries| :: entries[i].lastUpdated <= entries[j].lastUpdated)
    && (forall j | 0 <= j < i :: entries[j].lastUpdated > entries[i].lastUpdated)
  }

  /** The position the stable sort puts first, or None where First() throws. */
  function Oldest(entries: seq<Address>): (r: Option<nat>)
    ensures r.None? <==> |entries| == 0
    ensures r.Some? ==> r.value < |entries|
    ensures r.Some? ==> forall j | 0 <= j < |entries| :: entries[r.value].lastUpdated <= entries[j].lastUpdated
    ensures r.Some? ==> forall j | 0 <= j < r.value :: entries[j].lastUpdated > entries[r.value].lastUpdated
    decreases |entries|
  {
    if |entries| == 0 then None
    else
      var last := |entries| - 1;
      match Oldest(entries[..last])
      case None => Some(0)
      case Some(k) =>
        assert entries[..last][k] == entries[k];
        if entries[last].lastUpdated < entries[k].lastUpdated then Some(last) else Some(k)
  }

  /** The choice is the only position with the stalest-first properties. */
  lemma OldestIsUnique(entries: seq<Address>, i: int)
    requires IsOldest(entries, i)
    ensures Oldest(entries) == Some(i)
  {
  }

  /** The choice depends on the timestamps alone: two lists of the same
      length whose timestamps agree position by position select the same
      position. */
  lemma OldestDependsOnTimestampsOnly(entries: seq<Address>, others: seq<Address>)
    requires |entries| == |others|
    requires forall j | 0 <= j < |entries| :: entries[j].lastUpdated == others[j].lastUpdated
    ensures Oldest(entries) == Oldest(others)
  {
    if |entries| > 0 {
      OldestIsUnique(others, Oldest(entries).value);
    }
  }

}
