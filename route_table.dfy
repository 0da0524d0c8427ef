/**
 * The hash table of rmon.c (HashTable, HashNode): a fixed array of bucket
 * heads, each the head of a singly linked chain of route records. A chain
 * is held here as the sequence of its records, head first.
 */
module RouteTable {
  import opened Wrappers
  import opened Routes
  import opened Hashing
  import opened Chains

  class HashTable {
    /** The bucket count, fixed when the table is created. */
    const size: nat
    /** buckets[i] is the chain of bucket i, head first. */
    const buckets: array<seq<RouteInfo>>

    /** The table invariant: the array has `size` buckets and every record sits in the bucket of its key. */
    ghost predicate Valid()
      reads buckets
    {
      size > 0 && buckets.Length == size && Placed(buckets[..])
    }

    /** The chains of the table. */
    ghost function Table(): Buckets
      reads buckets
    {
      buckets[..]
    }

    /** The stored records with their multiplicities. */
    ghost function Contents(): multiset<RouteInfo>
      reads buckets
    {
      Elements(buckets[..])
    }

    /** A table of `size` buckets, all of them empty. */
    constructor (size: nat)
      requires size > 0
      ensures Valid() && fresh(buckets) && this.size == size
      ensures Table() == Empty(size) && Contents() == multiset{}
    {
      this.size := size;
      buckets := new seq<RouteInfo>[size](_ => []);
      new;
      assert buckets[..] == Empty(size);
    }

    /**
     * hash_table_init. `allocOk` says whether the two allocations
     * succeeded; when one does not, the result is NULL.
     */
    static method Init(size: nat, allocOk: bool) returns (ht: HashTable?)
      requires size > 0
      ensures ht != null <==> allocOk
      ensures ht != null ==> fresh(ht) && fresh(ht.buckets) && ht.Valid() && ht.size == size
      ensures ht != null ==> ht.Table() == Empty(size) && ht.Contents() == multiset{}
    {
      if !allocOk {
        return null;
      }
      ht := new HashTable(size);
    }

    /**
     * hash_table_insert: a new node holding `route` becomes the head of its
     * bucket's chain. Duplicate keys are not looked for. `allocOk` says
     * whether the node's allocation succeeded; when it does not, nothing changes.
     */
    method Insert(route: RouteInfo, allocOk: bool)
      requires Valid()
      modifies buckets
      ensures Valid()
      ensures Table() == if allocOk then InsertChains(old(Table()), route) else old(Table())
      ensures Contents() == if allocOk then old(Contents()) + multiset{route} else old(Contents())
    {
      var index := HashFunction(route.destination, route.ifindex, size);
      if !allocOk {
        return;
      }
      InsertPlaced(buckets[..], route);
      InsertElements(buckets[..], route);
      buckets[index] := [route] + buckets[index];
    }

    /**
     * hash_table_remove: walks the chain of the key's bucket and unlinks the
     * first node whose destination and interface index both match.
     */
    method Remove(destination: CString, ifindex: Int32)
      requires Valid()
      modifies buckets
      ensures Valid()
      ensures Table() == RemoveChains(old(Table()), destination, ifindex)
      ensures match RemovedRecord(old(Table()), destination, ifindex)
        case None => Table() == old(Table())
        case Some(r) => HasKey(r, destination, ifindex) && Contents() + multiset{r} == old(Contents())
    {
      var index := HashFunction(destination, ifindex, size);
      ghost var before := buckets[..];
      RemovePlaced(before, destination, ifindex);
      RemoveElements(before, destination, ifindex);
      var chain := buckets[index];
      RemoveFirstSplice(chain, destination, ifindex);
      var k := 0;
      while k < |chain|
        invariant 0 <= k <= |chain|
        invariant forall j | 0 <= j < k :: !HasKey(chain[j], destination, ifindex)
      {
        if HasKey(chain[k], destination, ifindex) {
          buckets[index] := chain[..k] + chain[k + 1..];
          return;
        }
        k := k + 1;
      }
    }

    /**
     * hash_table_find_by_ifindex: visits every bucket in index order and
     * every chain head to tail, and hands each record with the interface
     * index to the visitor; the visits are returned in order.
     */
    method FindByIfindex(ifindex: Int32) returns (visited: seq<RouteInfo>)
      requires Valid()
      ensures visited == Matching(Table(), ifindex)
    {
      visited := [];
      var i := 0;
      while i < size
        invariant 0 <= i <= size
        invariant visited == Matching(buckets[..i], ifindex)
      {
        var current := buckets[i];
        ghost var done := visited;
        var k := 0;
        while k < |current|
          invariant 0 <= k <= |current|
          invariant visited == done + Filter(current[..k], ifindex)
        {
          assert current[..k + 1][..k] == current[..k];
          if current[k].ifindex == ifindex {
            visited := visited + [current[k]];
          }
          k := k + 1;
        }
        assert current[..k] == current;
        assert buckets[..i + 1][..i] == buckets[..i];
        i := i + 1;
      }
      assert buckets[..i] == buckets[..];
    }
  }
}
