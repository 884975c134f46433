/** A hash register shared by the entries of a table: each live entry has a bucket, and the
    register should show exactly the buckets of the live entries. */
module HashIndex {
  import opened Wrappers

  /** The bucket of each live entry of the table. */
  type Buckets = seq<Option<nat>>

  /** The set bits of the register are the buckets in use. */
  ghost predicate HashOk(hash: set<nat>, bs: Buckets) {
    forall b: nat :: b in hash <==> Some(b) in bs
  }

  /** No other live entry shares the bucket of entry `i`. */
  predicate OwnBucket(bs: Buckets, i: nat)
    requires i < |bs|
  {
    forall j :: 0 <= j < |bs| && j != i && bs[j].Some? ==> bs[j] != bs[i]
  }

  /** The live entries occupy distinct buckets. */
  predicate DistinctBuckets(bs: Buckets) {
    forall i, j :: 0 <= i < j < |bs| && bs[i].Some? ==> bs[i] != bs[j]
  }

  lemma HashAdded(hash: set<nat>, bs: Buckets, i: nat, b: nat)
    requires HashOk(hash, bs) && i < |bs| && bs[i].None?
    ensures HashOk(hash + {b}, bs[i := Some(b)])
  {
    var bs' := bs[i := Some(b)];
    assert bs'[i] == Some(b);
    forall x: nat | Some(x) in bs
      ensures Some(x) in bs'
    {
      var j :| 0 <= j < |bs| && bs[j] == Some(x);
      assert bs'[j] == Some(x);
    }
  }

  /** Clearing the bit of an entry that goes away is right exactly if no other entry uses it. */
  lemma HashClearedIffOwn(hash: set<nat>, bs: Buckets, i: nat)
    requires HashOk(hash, bs) && i < |bs| && bs[i].Some?
    ensures HashOk(hash - {bs[i].value}, bs[i := None]) <==> OwnBucket(bs, i)
  {
    var own, bs' := bs[i].value, bs[i := None];
    if OwnBucket(bs, i) {
      forall x: nat
        ensures x in hash - {own} <==> Some(x) in bs'
      {
        if x in hash - {own} {
          var j :| 0 <= j < |bs| && bs[j] == Some(x);
          assert bs'[j] == Some(x);
        }
      }
    } else {
      var j :| 0 <= j < |bs| && j != i && bs[j].Some? && bs[j] == bs[i];
      assert bs'[j] == Some(own);
    }
  }
}
