/**
 * The abstract view of the separately chained hash table of rmon.c: one
 * sequence of records per bucket, each chain listed head to tail. The
 * operations of the table are specified here as functions on that view.
 */
module Chains {
  import opened Wrappers
  import opened Routes
  import opened Hashing

  type Buckets = seq<seq<RouteInfo>>

  /** The bucket a record belongs in: the hash of its key. */
  function BucketOf(r: RouteInfo, size: nat): nat
    requires size > 0
  {
    Hash(r.destination, r.ifindex, size)
  }

  /** The placement invariant: every record sits in the bucket its key hashes to. */
  ghost predicate Placed(bs: Buckets) {
    forall i, j | 0 <= i < |bs| && 0 <= j < |bs[i]| :: BucketOf(bs[i][j], |bs|) == i
  }

  /** The chains laid end to end, bucket 0 first, each chain head to tail. */
  function Flatten(bs: Buckets): seq<RouteInfo> {
    if bs == [] then [] else Flatten(bs[..|bs| - 1]) + bs[|bs| - 1]
  }

  /** The records stored in the table, with their multiplicities. */
  ghost function Elements(bs: Buckets): multiset<RouteInfo> {
    multiset(Flatten(bs))
  }

  /** A table of `size` buckets, all empty (hash_table_init). */
  function Empty(size: nat): (bs: Buckets)
    ensures |bs| == size && Placed(bs) && Elements(bs) == multiset{}
  {
    EmptyHasNoElements(size);
    seq(size, _ => [])
  }

  lemma {:induction false} EmptyHasNoElements(size: nat)
    ensures Flatten(seq(size, _ => [])) == []
  {
    if size > 0 {
      var bs: Buckets := seq(size, _ => []);
      assert bs[..size - 1] == seq(size - 1, _ => []);
      EmptyHasNoElements(size - 1);
    }
  }

  lemma {:induction false} InElements(bs: Buckets, r: RouteInfo)
    ensures r in Elements(bs) <==> exists i :: 0 <= i < |bs| && r in bs[i]
  {
    if bs != [] {
      var n := |bs| - 1;
      InElements(bs[..n], r);
      assert forall i | 0 <= i < n :: bs[..n][i] == bs[i];
    }
  }

  /** Replacing one chain changes the stored records by exactly that chain's difference. */
  lemma {:induction false} ElementsUpdate(bs: Buckets, h: nat, c: seq<RouteInfo>)
    requires h < |bs|
    ensures Elements(bs[h := c]) + multiset(bs[h]) == Elements(bs) + multiset(c)
  {
    var n := |bs| - 1;
    var bs' := bs[h := c];
    assert Elements(bs) == Elements(bs[..n]) + multiset(bs[n]);
    assert Elements(bs') == Elements(bs'[..n]) + multiset(bs'[n]);
    if h == n {
      assert bs'[..n] == bs[..n];
    } else {
      assert bs'[..n] == bs[..n][h := c];
      assert bs[..n][h] == bs[h] && bs'[n] == bs[n];
      ElementsUpdate(bs[..n], h, c);
      calc {
        Elements(bs') + multiset(bs[h]);
        Elements(bs[..n][h := c]) + multiset(bs[n]) + multiset(bs[h]);
        (Elements(bs[..n][h := c]) + multiset(bs[..n][h])) + multiset(bs[n]);
        (Elements(bs[..n]) + multiset(c)) + multiset(bs[n]);
        Elements(bs) + multiset(c);
      }
    }
  }

  lemma MultisetCancel(a: multiset<RouteInfo>, b: multiset<RouteInfo>, c: multiset<RouteInfo>)
    requires a + c == b + c
    ensures a == b
  {
    forall x ensures a[x] == b[x] {
      assert (a + c)[x] == (b + c)[x];
    }
  }

  /* ---- hash_table_insert ---- */

  /** The table after inserting `r`: a node holding `r` prepended to its bucket's chain. */
  function InsertChains(bs: Buckets, r: RouteInfo): Buckets
    requires |bs| > 0
  {
    var h := BucketOf(r, |bs|);
    bs[h := [r] + bs[h]]
  }

  /** Insert keeps every record in its own bucket. */
  lemma InsertPlaced(bs: Buckets, r: RouteInfo)
    requires |bs| > 0 && Placed(bs)
    ensures Placed(InsertChains(bs, r))
  {
  }

  /** Insert adds exactly one record, even when one with the same key is already stored. */
  lemma InsertElements(bs: Buckets, r: RouteInfo)
    requires |bs| > 0
    ensures Elements(InsertChains(bs, r)) == Elements(bs) + multiset{r}
    ensures Elements(InsertChains(bs, r))[r] == Elements(bs)[r] + 1
  {
    var h := BucketOf(r, |bs|);
    var bs' := bs[h := [r] + bs[h]];
    ElementsUpdate(bs, h, [r] + bs[h]);
    assert multiset([r] + bs[h]) == multiset{r} + multiset(bs[h]);
    MultisetCancel(Elements(bs'), Elements(bs) + multiset{r}, multiset(bs[h]));
  }

  /* ---- hash_table_remove ---- */

  /** The position of the first record in the chain with the given key, or |c| if there is none. */
  function FirstKeyIndex(c: seq<RouteInfo>, destination: CString, ifindex: Int32): (k: nat)
    ensures k <= |c|
    ensures k < |c| ==> HasKey(c[k], destination, ifindex)
    ensures forall j | 0 <= j < k :: !HasKey(c[j], destination, ifindex)
  {
    if c == [] then 0
    else if HasKey(c[0], destination, ifindex) then 0
    else 1 + FirstKeyIndex(c[1..], destination, ifindex)
  }

  /** The walk of hash_table_remove over one chain: unlink the first node with the key, keep the rest. */
  function RemoveFirst(c: seq<RouteInfo>, destination: CString, ifindex: Int32): seq<RouteInfo> {
    if c == [] then []
    else if HasKey(c[0], destination, ifindex) then c[1..]
    else [c[0]] + RemoveFirst(c[1..], destination, ifindex)
  }

  /** RemoveFirst cuts the chain at the first match and leaves the other nodes in order; without a match it changes nothing. */
  lemma {:induction false} RemoveFirstSplice(c: seq<RouteInfo>, destination: CString, ifindex: Int32)
    ensures var k := FirstKeyIndex(c, destination, ifindex);
      RemoveFirst(c, destination, ifindex) == if k == |c| then c else c[..k] + c[k + 1..]
  {
    if c != [] && !HasKey(c[0], destination, ifindex) {
      RemoveFirstSplice(c[1..], destination, ifindex);
      var k := FirstKeyIndex(c[1..], destination, ifindex);
      if k < |c[1..]| {
        assert [c[0]] + (c[1..][..k] + c[1..][k + 1..]) == c[..k + 1] + c[k + 2..];
      }
    }
  }

  /** The table after removing the key: the chain of its bucket loses its first match. */
  function RemoveChains(bs: Buckets, destination: CString, ifindex: Int32): Buckets
    requires |bs| > 0
  {
    var h := Hash(destination, ifindex, |bs|);
    bs[h := RemoveFirst(bs[h], destination, ifindex)]
  }

  /** The record that removing the key unlinks, if any. */
  function RemovedRecord(bs: Buckets, destination: CString, ifindex: Int32): Option<RouteInfo>
    requires |bs| > 0
  {
    var c := bs[Hash(destination, ifindex, |bs|)];
    var k := FirstKeyIndex(c, destination, ifindex);
    if k < |c| then Some(c[k]) else None
  }

  /** Remove keeps every record in its own bucket. */
  lemma RemovePlaced(bs: Buckets, destination: CString, ifindex: Int32)
    requires |bs| > 0 && Placed(bs)
    ensures Placed(RemoveChains(bs, destination, ifindex))
  {
    var h := Hash(destination, ifindex, |bs|);
    var c := bs[h];
    RemoveFirstSplice(c, destination, ifindex);
    var k := FirstKeyIndex(c, destination, ifindex);
    if k < |c| {
      var c' := c[..k] + c[k + 1..];
      forall j | 0 <= j < |c'| ensures BucketOf(c'[j], |bs|) == h {
        if j < k { assert c'[j] == c[j]; } else { assert c'[j] == c[j + 1]; }
      }
    }
  }

  /** Unlinking the node at position k of a chain takes exactly that record out of the chain. */
  lemma SpliceElements(c: seq<RouteInfo>, k: nat)
    requires k < |c|
    ensures multiset(c[..k] + c[k + 1..]) + multiset{c[k]} == multiset(c)
  {
    assert c == c[..k] + [c[k]] + c[k + 1..];
  }

  /**
   * Remove either finds nothing and leaves the table identical, or unlinks
   * exactly one record carrying the key.
   */
  lemma RemoveElements(bs: Buckets, destination: CString, ifindex: Int32)
    requires |bs| > 0
    ensures match RemovedRecord(bs, destination, ifindex)
      case None => RemoveChains(bs, destination, ifindex) == bs
      case Some(r) =>
        HasKey(r, destination, ifindex) &&
        Elements(RemoveChains(bs, destination, ifindex)) + multiset{r} == Elements(bs)
  {
    var h := Hash(destination, ifindex, |bs|);
    var c := bs[h];
    RemoveFirstSplice(c, destination, ifindex);
    var k := FirstKeyIndex(c, destination, ifindex);
    if k < |c| {
      var c' := c[..k] + c[k + 1..];
      var bs' := bs[h := c'];
      SpliceElements(c, k);
      ElementsUpdate(bs, h, c');
      calc {
        (Elements(bs') + multiset{c[k]}) + multiset(c');
        Elements(bs') + multiset(c);
        Elements(bs) + multiset(c');
      }
      MultisetCancel(Elements(bs') + multiset{c[k]}, Elements(bs), multiset(c'));
    } else {
      assert bs[h := c] == bs;
    }
  }

  /**
   * In a table that keeps the placement invariant, remove finds a record
   * exactly when some stored record carries the key.
   */
  lemma RemoveFindsStoredKey(bs: Buckets, destination: CString, ifindex: Int32)
    requires |bs| > 0 && Placed(bs)
    ensures RemovedRecord(bs, destination, ifindex).Some?
        <==> exists r :: r in Elements(bs) && HasKey(r, destination, ifindex)
  {
    var h := Hash(destination, ifindex, |bs|);
    var c := bs[h];
    var k := FirstKeyIndex(c, destination, ifindex);
    if k < |c| {
      InElements(bs, c[k]);
    } else if r :| r in Elements(bs) && HasKey(r, destination, ifindex) {
      InElements(bs, r);
      assert false;
    }
  }

  /** A removal of the key just inserted unlinks that very node: the table is as before. */
  lemma InsertThenRemove(bs: Buckets, r: RouteInfo)
    requires |bs| > 0
    ensures RemoveChains(InsertChains(bs, r), r.destination, r.ifindex) == bs
    ensures Elements(RemoveChains(InsertChains(bs, r), r.destination, r.ifindex)) == Elements(bs)
  {
  }

  /* ---- hash_table_find_by_ifindex ---- */

  /** The records of one chain whose interface index is `ifindex`, head to tail. */
  function Filter(c: seq<RouteInfo>, ifindex: int): seq<RouteInfo> {
    if c == [] then []
    else Filter(c[..|c| - 1], ifindex) + (if c[|c| - 1].ifindex == ifindex then [c[|c| - 1]] else [])
  }

  /** The records the scan visits: bucket 0 up to the last, each chain head to tail. */
  function Matching(bs: Buckets, ifindex: int): seq<RouteInfo> {
    if bs == [] then [] else Matching(bs[..|bs| - 1], ifindex) + Filter(bs[|bs| - 1], ifindex)
  }

  lemma {:induction false} FilterAppend(a: seq<RouteInfo>, b: seq<RouteInfo>, ifindex: int)
    ensures Filter(a + b, ifindex) == Filter(a, ifindex) + Filter(b, ifindex)
  {
    if b != [] {
      var n := |b| - 1;
      assert (a + b)[..|a + b| - 1] == a + b[..n];
      FilterAppend(a, b[..n], ifindex);
    } else {
      assert a + b == a;
    }
  }

  /** Each visited record carries the interface index, and each stored one that does is visited as often as it is stored. */
  lemma {:induction false} FilterCounts(c: seq<RouteInfo>, ifindex: int, r: RouteInfo)
    ensures multiset(Filter(c, ifindex))[r] == if r.ifindex == ifindex then multiset(c)[r] else 0
  {
    if c != [] {
      var n := |c| - 1;
      FilterCounts(c[..n], ifindex, r);
      assert c == c[..n] + [c[n]];
    }
  }

  /** The scan order is the order of the chains laid end to end. */
  lemma {:induction false} MatchingIsFilteredFlatten(bs: Buckets, ifindex: int)
    ensures Matching(bs, ifindex) == Filter(Flatten(bs), ifindex)
  {
    if bs != [] {
      var n := |bs| - 1;
      MatchingIsFilteredFlatten(bs[..n], ifindex);
      FilterAppend(Flatten(bs[..n]), bs[n], ifindex);
    }
  }

  /** The scan visits exactly the stored records with the interface index, each once per stored copy. */
  lemma MatchingCounts(bs: Buckets, ifindex: int, r: RouteInfo)
    ensures multiset(Matching(bs, ifindex))[r] == if r.ifindex == ifindex then Elements(bs)[r] else 0
  {
    MatchingIsFilteredFlatten(bs, ifindex);
    FilterCounts(Flatten(bs), ifindex, r);
  }
}
