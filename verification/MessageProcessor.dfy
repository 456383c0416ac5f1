/**
 Scattering decoded tuples over the executors, and the partition hint of a transaction
 (NDBMessageProcessor.cpp, NDBMessageProcessor.h). `rand()` is an arbitrary sequence of numbers.
 */
module MessageProcessing {
  import opened Wrappers
  import opened Wire
  import opened ColumnCodec
  import opened NdbTables

  // ---------------------------------------------------------------- distribution keys

  /** has_distribution_key() && distribution_key(). */
  predicate IsDistributionKey(c: ColumnValue) { c.distributionKey == Some(true) }

  function DistributionKeysOf(columns: seq<ColumnValue>): seq<ColumnValue> {
    Select(columns, c => IsDistributionKey(c))
  }

  /** They are the columns whose flag is there and true, in order. */
  lemma DistributionKeysAreFlaggedTrue(columns: seq<ColumnValue>) returns (indexes: seq<nat>)
    ensures Picks(columns, (c: ColumnValue) => c.distributionKey == Some(true), DistributionKeysOf(columns), indexes)
  {
    indexes := SelectIsInOrder(columns, (c: ColumnValue) => IsDistributionKey(c));
  }

  lemma DistributionKeysGrow(columns: seq<ColumnValue>, i: nat)
    requires i < |columns|
    ensures DistributionKeysOf(columns[..i + 1])
            == DistributionKeysOf(columns[..i]) + if IsDistributionKey(columns[i]) then [columns[i]] else []
  {
    assert columns[..i + 1][..i] == columns[..i];
  }

  lemma {:induction false} DistributionKeysFit(columns: seq<ColumnValue>, i: nat)
    requires i <= |columns|
    ensures |DistributionKeysOf(columns[..i])| <= |DistributionKeysOf(columns)|
    decreases |columns| - i
  {
    if i < |columns| {
      DistributionKeysGrow(columns, i);
      DistributionKeysFit(columns, i + 1);
    } else {
      assert columns[..i] == columns;
    }
  }

  method GetNoDistributionKeyIndexes(columns: seq<ColumnValue>) returns (n: nat)
    ensures n == |DistributionKeysOf(columns)|
  {
    n := 0;
    for i := 0 to |columns|
      invariant n == |DistributionKeysOf(columns[..i])|
    {
      DistributionKeysGrow(columns, i);
      if IsDistributionKey(columns[i]) {
        n := n + 1;
      }
    }
    assert columns[..|columns|] == columns;
  }

  /** Ndb::Key_part_ptr; a null pointer of length 0 ends the array. */
  datatype KeyPart = KeyPart(ptr: Option<Bytes>, len: nat)

  const TERMINATOR := KeyPart(None, 0)

  function PartsOfKey(columns: seq<ColumnValue>): (parts: seq<KeyPart>)
    ensures |parts| == |columns|
  {
    seq(|columns|, i requires 0 <= i < |columns| => KeyPart(Some(ValueOf(columns[i])), |ValueOf(columns[i])|))
  }

  /** Slots 0..count-1 are the flagged columns in order, slot count is the terminator. */
  method GetHint(columns: seq<ColumnValue>, hint: array<KeyPart>)
    requires hint.Length == |DistributionKeysOf(columns)| + 1
    modifies hint
    ensures hint[..] == PartsOfKey(DistributionKeysOf(columns)) + [TERMINATOR]
    ensures forall k :: 0 <= k < |DistributionKeysOf(columns)| ==>
              var value := DistributionKeysOf(columns)[k].value.GetOr([]);
              hint[k].ptr == Some(value) && hint[k].len == |value|
    ensures hint[hint.Length - 1].ptr == None && hint[hint.Length - 1].len == 0
  {
    var n := 0;
    for i := 0 to |columns|
      invariant n == |DistributionKeysOf(columns[..i])|
      invariant n < hint.Length
      invariant hint[..n] == PartsOfKey(DistributionKeysOf(columns[..i]))
    {
      DistributionKeysGrow(columns, i);
      DistributionKeysFit(columns, i + 1);
      if IsDistributionKey(columns[i]) {
        hint[n] := KeyPart(Some(ValueOf(columns[i])), |ValueOf(columns[i])|);
        n := n + 1;
        assert hint[..n] == hint[..n - 1] + [hint[n - 1]];
      }
    }
    assert columns[..|columns|] == columns;
    hint[n] := TERMINATOR;
    assert hint[..] == hint[..n] + [hint[n]];
  }

  /** The hint _startTransaction passes on, or none when no column is flagged. */
  method HintFor(columns: seq<ColumnValue>) returns (parts: Option<seq<KeyPart>>)
    ensures parts == if DistributionKeysOf(columns) == [] then None
                     else Some(PartsOfKey(DistributionKeysOf(columns)) + [TERMINATOR])
  {
    var noDistributionKeys := GetNoDistributionKeyIndexes(columns);
    if noDistributionKeys > 0 {
      var hint := new KeyPart[noDistributionKeys + 1](_ => TERMINATOR);
      GetHint(columns, hint);
      return Some(hint[..]);
    } else {
      return None;
    }
  }

  // ---------------------------------------------------------------- scattering

  /** rand() % noOfExecutors. */
  function ExecutorFor(random: nat, noOfExecutors: nat): (e: nat)
    requires noOfExecutors > 0
    ensures e < noOfExecutors
  {
    random % noOfExecutors
  }

  /** The tuples that drew executor e, in order. */
  function BucketOf<T>(xs: seq<T>, choices: seq<nat>, e: nat): seq<T>
    requires |choices| == |xs|
  {
    if xs == [] then []
    else
      var last := |xs| - 1;
      BucketOf(xs[..last], choices[..last], e) + if choices[last] == e then [xs[last]] else []
  }

  function Choices(randoms: seq<nat>, noOfExecutors: nat): (choices: seq<nat>)
    requires noOfExecutors > 0
    ensures |choices| == |randoms|
    ensures forall i :: 0 <= i < |choices| ==> choices[i] < noOfExecutors
  {
    seq(|randoms|, i requires 0 <= i < |randoms| => ExecutorFor(randoms[i], noOfExecutors))
  }

  /** No executor is left out: whatever executors the tuples are to go to, some numbers send them there. */
  lemma AnyChoicesCanBeDrawn(choices: seq<nat>, noOfExecutors: nat)
    requires noOfExecutors > 0 && forall i :: 0 <= i < |choices| ==> choices[i] < noOfExecutors
    ensures exists randoms :: |randoms| == |choices| && Choices(randoms, noOfExecutors) == choices
  {
    assert Choices(choices, noOfExecutors) == choices;
  }

  lemma BucketGrows<T>(xs: seq<T>, choices: seq<nat>, e: nat, i: nat)
    requires |choices| == |xs| && i < |xs|
    ensures BucketOf(xs[..i + 1], choices[..i + 1], e)
            == BucketOf(xs[..i], choices[..i], e) + if choices[i] == e then [xs[i]] else []
  {
    assert xs[..i + 1][..i] == xs[..i] && choices[..i + 1][..i] == choices[..i];
  }

  /** addToExecutorList: creates the bucket on demand. */
  method AddToExecutorList<T>(executorMap: map<nat, seq<T>>, executorNo: nat, x: T) returns (updated: map<nat, seq<T>>)
    ensures updated == executorMap[executorNo := (if executorNo in executorMap then executorMap[executorNo] else [])
              + [x]]
  {
    var bucket := if executorNo in executorMap then executorMap[executorNo] else [];
    updated := executorMap[executorNo := bucket + [x]];
  }

  /** The buckets are exactly the non-empty shares of the executors. */
  ghost predicate AreBuckets<T>(buckets: map<nat, seq<T>>, xs: seq<T>, choices: seq<nat>)
    requires |choices| == |xs|
  {
    forall e: nat :: (e in buckets <==> BucketOf(xs, choices, e) != []) &&
        (e in buckets ==> buckets[e] == BucketOf(xs, choices, e))
  }

  method ProcessForExecutor<T>(messagesList: seq<T>, noOfExecutors: nat, randoms: seq<nat>)
    returns (buckets: map<nat, seq<T>>)
    requires noOfExecutors > 0 && |randoms| == |messagesList|
    ensures AreBuckets(buckets, messagesList, Choices(randoms, noOfExecutors))
  {
    ghost var choices := Choices(randoms, noOfExecutors);
    buckets := map[];
    for i := 0 to |messagesList|
      invariant AreBuckets(buckets, messagesList[..i], choices[..i])
    {
      var executorNo := ExecutorFor(randoms[i], noOfExecutors);
      ghost var before := buckets;
      buckets := AddToExecutorList(buckets, executorNo, messagesList[i]);
      forall e: nat
        ensures BucketOf(messagesList[..i + 1], choices[..i + 1], e)
                == (if e in before then before[e] else []) + if choices[i] == e then [messagesList[i]] else []
      {
        BucketGrows(messagesList, choices, e, i);
      }
    }
    assert messagesList[..|messagesList|] == messagesList && choices[..|choices|] == choices;
  }

  // ---------------------------------------------------------------- scattering is a partition

  /** Executors 0..n-1 together. */
  function Together<T>(xs: seq<T>, choices: seq<nat>, n: nat): multiset<T>
    requires |choices| == |xs|
  {
    if n == 0 then multiset{} else Together(xs, choices, n - 1) + multiset(BucketOf(xs, choices, n - 1))
  }

  /** xs with indexes strictly increasing: what a subsequence in order is. */
  ghost predicate IsSubsequence<T>(bucket: seq<T>, xs: seq<T>, indexes: seq<nat>) {
    && |indexes| == |bucket|
    && (forall k :: 0 <= k < |indexes| ==> indexes[k] < |xs| && xs[indexes[k]] == bucket[k])
    && forall j, k :: 0 <= j < k < |indexes| ==> indexes[j] < indexes[k]
  }

  /** The positions that drew executor e. */
  function IndexesOf(choices: seq<nat>, e: nat): seq<nat> {
    if choices == [] then []
    else
      var last := |choices| - 1;
      IndexesOf(choices[..last], e) + if choices[last] == e then [last] else []
  }

  lemma {:induction false} BucketIsSubsequence<T>(xs: seq<T>, choices: seq<nat>, e: nat)
    requires |choices| == |xs|
    ensures IsSubsequence(BucketOf(xs, choices, e), xs, IndexesOf(choices, e))
    ensures forall k :: 0 <= k < |IndexesOf(choices, e)| ==> IndexesOf(choices, e)[k] < |choices|
  {
    if xs != [] {
      var last := |xs| - 1;
      BucketIsSubsequence(xs[..last], choices[..last], e);
    }
  }

  function BagIf<T>(b: bool, x: T): multiset<T> { if b then multiset{x} else multiset{} }

  lemma OneOfTwoBags<T>(a: bool, b: bool, x: T)
    requires !(a && b)
    ensures BagIf(a || b, x) == BagIf(a, x) + BagIf(b, x)
  {
  }

  lemma BagOfBucket<T>(xs: seq<T>, choices: seq<nat>, e: nat)
    requires |choices| == |xs| && xs != []
    ensures var last := |xs| - 1;
            multiset(BucketOf(xs, choices, e))
            == multiset(BucketOf(xs[..last], choices[..last], e)) + BagIf(choices[last] == e, xs[last])
  {
  }

  lemma TogetherStep<T>(xs: seq<T>, choices: seq<nat>, n: nat)
    requires |choices| == |xs| && n > 0
    ensures Together(xs, choices, n) == Together(xs, choices, n - 1) + multiset(BucketOf(xs, choices, n - 1))
  {
  }

  lemma NoBag<T>(b: bool, x: T)
    requires !b
    ensures BagIf(b, x) == multiset{}
  {
  }

  lemma {:induction false} TogetherGrows<T>(xs: seq<T>, choices: seq<nat>, n: nat)
    requires |choices| == |xs| && xs != []
    ensures var last := |xs| - 1;
            Together(xs, choices, n) == Together(xs[..last], choices[..last], n) + BagIf(choices[last] < n, xs[last])
  {
    hide BucketOf;
    hide BagIf;
    var last := |xs| - 1;
    var (ys, cs) := (xs[..last], choices[..last]);
    if n == 0 {
      NoBag(choices[last] < n, xs[last]);
    } else {
      hide Together;
      var (x, before, here) := (xs[last], choices[last] < n - 1, choices[last] == n - 1);
      TogetherGrows(xs, choices, n - 1);
      BagOfBucket(xs, choices, n - 1);
      OneOfTwoBags(before, here, x);
      assert (before || here) == (choices[last] < n);
      TogetherStep(xs, choices, n);
      TogetherStep(ys, cs, n);
      BagsSwap(Together(xs, choices, n - 1), Together(ys, cs, n - 1), BagIf(before, x),
               multiset(BucketOf(xs, choices, n - 1)), multiset(BucketOf(ys, cs, n - 1)), BagIf(here, x),
               BagIf(choices[last] < n, x));
    }
  }

  lemma BagsSwap<T>(a': multiset<T>, a: multiset<T>, x: multiset<T>, b': multiset<T>, b: multiset<T>, y: multiset<T>,
                    both: multiset<T>)
    requires a' == a + x && b' == b + y && both == x + y
    ensures a' + b' == (a + b) + both
  {
  }

  lemma {:induction false} NothingTogether<T>(n: nat)
    ensures Together<T>([], [], n) == multiset{}
  {
    if n > 0 {
      NothingTogether<T>(n - 1);
    }
  }

  lemma {:induction false} BucketsAreEverything<T>(xs: seq<T>, choices: seq<nat>, n: nat)
    requires |choices| == |xs| && forall i :: 0 <= i < |choices| ==> choices[i] < n
    ensures Together(xs, choices, n) == multiset(xs)
  {
    hide BucketOf;
    if xs == [] {
      NothingTogether<T>(n);
      assert choices == [];
    } else {
      var last := |xs| - 1;
      BucketsAreEverything(xs[..last], choices[..last], n);
      TogetherGrows(xs, choices, n);
      assert multiset(xs) == multiset(xs[..last]) + multiset{xs[last]} by {
        assert xs == xs[..last] + [xs[last]];
      }
    }
  }

  /** For any random numbers: no bucket is empty or out of range, none loses or repeats a tuple, and order is kept. */
  lemma ScatterIsPartition<T>(buckets: map<nat, seq<T>>, xs: seq<T>, randoms: seq<nat>, n: nat)
    requires n > 0 && |randoms| == |xs| && AreBuckets(buckets, xs, Choices(randoms, n))
    ensures forall e :: e in buckets ==> e < n && buckets[e] != []
    ensures forall e :: e in buckets ==> exists indexes :: IsSubsequence(buckets[e], xs, indexes)
    ensures Together(xs, Choices(randoms, n), n) == multiset(xs)
  {
    var choices := Choices(randoms, n);
    forall e | e in buckets
      ensures e < n && exists indexes :: IsSubsequence(buckets[e], xs, indexes)
    {
      BucketIsSubsequence(xs, choices, e);
      NobodyDrew(xs, choices, e, n);
    }
    BucketsAreEverything(xs, choices, n);
  }

  lemma {:induction false} NobodyDrew<T>(xs: seq<T>, choices: seq<nat>, e: nat, n: nat)
    requires |choices| == |xs| && forall i :: 0 <= i < |choices| ==> choices[i] < n
    ensures e >= n ==> BucketOf(xs, choices, e) == []
  {
    if xs != [] {
      var last := |xs| - 1;
      NobodyDrew(xs[..last], choices[..last], e, n);
    }
  }
}
