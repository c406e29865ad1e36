/** The sequence semantics of the support library's growable array and
    bucket array. Capacity, headers and reallocation are not modelled: a
    growable array is the sequence of its `length` live elements. */
module IrDs {

  /** `ARR_PUSH`: the element lands at index `length`. */
  function Push<T>(a: seq<T>, e: T): (r: seq<T>)
    ensures |r| == |a| + 1
    ensures r[..|a|] == a
    ensures r[|a|] == e
  {
    a + [e]
  }

  /** `ARR_LAST`: the element at `length - 1`. */
  function Last<T>(a: seq<T>): (r: T)
    requires |a| > 0
    ensures r in a
  {
    a[|a| - 1]
  }

  /** `ARR_POP`: decrements the length and yields the element now just past
      it. */
  function Pop<T>(a: seq<T>): (r: (seq<T>, T))
    requires |a| > 0
    ensures |r.0| == |a| - 1
    ensures r.0 + [r.1] == a
  {
    (a[..|a| - 1], a[|a| - 1])
  }

  /** Popping undoes pushing. */
  lemma PopAfterPush<T>(a: seq<T>, e: T)
    ensures Pop(Push(a, e)) == (a, e)
    ensures Last(Push(a, e)) == e
  {
    assert Push(a, e)[..|a|] == a;
  }

  /** `arr_del_n_helper` (`ARR_DEL`, `ARR_DEL_N`): the elements after the
      removed run move down by `n`. The range must lie inside the array;
      `arr_del_n_helper` asserts it. */
  function DelN<T>(a: seq<T>, index: nat, n: nat): (r: seq<T>)
    requires index + n <= |a|
    ensures |r| == |a| - n
    ensures r[..index] == a[..index]
    ensures forall k :: index <= k < |r| ==> r[k] == a[k + n]
  {
    a[..index] + a[index + n..]
  }

  /** `arr_insert_n_helper` (`ARR_INS_N`). Inside the array the elements
      from `index` on move up by `n`; at or past the end, the gap between the
      old end and `index` is zero-filled. The `n` gap slots keep whatever
      the memory held, here the parameter `gap`; callers overwrite them. */
  function InsertN<T>(a: seq<T>, index: nat, n: nat, zero: T, gap: seq<T>): (r: seq<T>)
    requires |gap| == n
    ensures |r| == (if index < |a| then |a| else index) + n
    ensures forall k :: 0 <= k < index && k < |a| ==> r[k] == a[k]
    ensures forall k :: |a| <= k < index ==> r[k] == zero
    ensures forall k :: 0 <= k < n ==> r[index + k] == gap[k]
    ensures forall k :: index <= k < |a| ==> r[k + n] == a[k]
  {
    if index < |a| then a[..index] + gap + a[index..]
    else a + seq(index - |a|, _ => zero) + gap
  }

  /** Deleting the run just inserted gives the array back. */
  lemma DelAfterInsert<T>(a: seq<T>, index: nat, n: nat, zero: T, gap: seq<T>)
    requires |gap| == n && index <= |a|
    ensures DelN(InsertN(a, index, n, zero, gap), index, n) == a
  {
    var r := InsertN(a, index, n, zero, gap);
    var d := DelN(r, index, n);
    assert |d| == |a|;
    forall k | 0 <= k < |a|
      ensures d[k] == a[k]
    {
      if k < index {
        assert d[k] == d[..index][k];
      }
    }
  }

  /** A bucket array: `buckets` holds fixed-size buckets, element `i`
      lives in bucket `i / bucketSize` at slot `i % bucketSize`. */
  datatype BucketArray<T> = BucketArray(length: nat, bucketSize: nat, buckets: seq<seq<T>>)
  {
    /** Established by `BA_INIT` and kept by every operation. */
    predicate Valid()
    {
      && bucketSize > 0
      && |buckets| >= 1
      && (forall b :: 0 <= b < |buckets| ==> |buckets[b]| == bucketSize)
      && length <= |buckets| * bucketSize
    }

    /** Number of element slots the buckets provide. */
    function Capacity(): nat
    {
      |buckets| * bucketSize
    }
  }

  /** `BA_INIT`: empty, with one first bucket (whose contents are whatever
      was allocated). A zero bucket size is asserted against. */
  function BaInit<T>(bucketSize: nat, first: seq<T>): (ba: BucketArray<T>)
    requires bucketSize != 0 && |first| == bucketSize
    ensures ba.Valid() && ba.length == 0 && ba.bucketSize == bucketSize
  {
    BucketArray(0, bucketSize, [first])
  }

  /** The bucket of element `i`, counted out by repeated subtraction
      (`LocateIsDivMod` shows it is `i / bucketSize`). */
  function BucketOf(i: nat, bucketSize: nat): nat
    requires bucketSize > 0
    decreases i
  {
    if i < bucketSize then 0 else 1 + BucketOf(i - bucketSize, bucketSize)
  }

  /** The slot of element `i` within its bucket (`i % bucketSize`). */
  function SlotOf(i: nat, bucketSize: nat): (s: nat)
    requires bucketSize > 0
    ensures s < bucketSize
    decreases i
  {
    if i < bucketSize then i else SlotOf(i - bucketSize, bucketSize)
  }

  /** Bucket and slot are the quotient and remainder `ba_get_helper` computes. */
  lemma {:induction false} LocateIsDivMod(i: nat, bucketSize: nat)
    requires bucketSize > 0
    ensures BucketOf(i, bucketSize) == i / bucketSize && SlotOf(i, bucketSize) == i % bucketSize
    decreases i
  {
    if i >= bucketSize {
      LocateIsDivMod(i - bucketSize, bucketSize);
      DivStep(i, bucketSize);
    }
  }

  lemma DivStep(i: nat, d: nat)
    requires d > 0 && i >= d
    ensures (i - d) / d == i / d - 1 && (i - d) % d == i % d
  {
    var q := (i - d) / d;
    var m := (i - d) % d;
    assert i == (q + 1) * d + m && 0 <= m < d;
    DivUnique(i, d, q + 1, m);
  }

  /** A quotient and remainder in range are the quotient and remainder. */
  lemma DivUnique(i: int, d: int, q: int, m: int)
    requires d > 0 && i == q * d + m && 0 <= m < d
    ensures i / d == q && i % d == m
  {
    var k := i / d - q;
    assert k * d == m - i % d by {
      assert k * d == (i / d) * d - q * d;
    }
    NonPositiveTimes(k, d);
    NonPositiveTimes(-k, d);
    assert (-k) * d == -(k * d);
  }

  /** A factor that is not positive gives a product that is not positive,
      and one that is gives a product of at least the other factor. */
  lemma {:induction false} NonPositiveTimes(c: int, b: nat)
    ensures c <= 0 ==> c * b <= 0
    ensures c >= 1 ==> c * b >= b
    decreases if c < 0 then -c else c
  {
    if c < 0 {
      NonPositiveTimes(c + 1, b);
      assert c * b == (c + 1) * b - b;
    } else if c > 1 {
      NonPositiveTimes(c - 1, b);
      assert c * b == (c - 1) * b + b;
    }
  }

  /** Every element below the capacity of `count` buckets lives in one of
      them. */
  lemma {:induction false} Locate(i: nat, bucketSize: nat, count: nat)
    requires bucketSize > 0 && i < count * bucketSize
    ensures BucketOf(i, bucketSize) < count
    decreases i
  {
    NonPositiveTimes(count, bucketSize);
    if i >= bucketSize {
      assert (count - 1) * bucketSize == count * bucketSize - bucketSize;
      NonPositiveTimes(count - 1, bucketSize);
      Locate(i - bucketSize, bucketSize, count - 1);
    }
  }

  /** Two different elements never share a bucket slot. */
  lemma {:induction false} DistinctSlots(i: nat, j: nat, bucketSize: nat)
    requires bucketSize > 0 && i != j
    ensures BucketOf(i, bucketSize) != BucketOf(j, bucketSize) || SlotOf(i, bucketSize) != SlotOf(j, bucketSize)
    decreases i + j
  {
    if i >= bucketSize && j >= bucketSize {
      DistinctSlots(i - bucketSize, j - bucketSize, bucketSize);
    }
  }

  /** `ba_get_helper` (`BA_GET`): the cell at `index`. `ba_get_helper` has
      no bounds check; the index must name a slot of an existing bucket. */
  function BaGet<T>(ba: BucketArray<T>, index: nat): (r: T)
    requires ba.Valid() && index < ba.Capacity()
    ensures BucketOf(index, ba.bucketSize) < |ba.buckets|
    ensures r == ba.buckets[BucketOf(index, ba.bucketSize)][SlotOf(index, ba.bucketSize)]
  {
    Locate(index, ba.bucketSize, |ba.buckets|);
    ba.buckets[BucketOf(index, ba.bucketSize)][SlotOf(index, ba.bucketSize)]
  }

  /** The cell `BaGet` reads is the one at the quotient and remainder of
      the index by the bucket size. */
  lemma BaGetDivMod<T>(ba: BucketArray<T>, index: nat)
    requires ba.Valid() && index < ba.Capacity()
    ensures index / ba.bucketSize < |ba.buckets| && index % ba.bucketSize < ba.bucketSize
    ensures BaGet(ba, index) == ba.buckets[index / ba.bucketSize][index % ba.bucketSize]
  {
    LocateIsDivMod(index, ba.bucketSize);
    Locate(index, ba.bucketSize, |ba.buckets|);
  }

  /** The live elements, in index order. */
  function Elements<T>(ba: BucketArray<T>): seq<T>
    requires ba.Valid()
  {
    seq(ba.length, i requires 0 <= i < ba.length && ba.Valid() && ba.length <= ba.Capacity() => BaGet(ba, i))
  }

  /** `ba_maybe_growth_helper`: a new bucket is appended exactly when every
      slot is taken; allocation failure is not modelled. */
  function BaMaybeGrow<T>(ba: BucketArray<T>, newBucket: seq<T>): (r: BucketArray<T>)
    requires ba.Valid() && |newBucket| == ba.bucketSize
    ensures r.Valid()
    ensures r.length == ba.length && r.bucketSize == ba.bucketSize
    ensures r.length < r.Capacity()
    ensures |r.buckets| == |ba.buckets| + (if ba.length == ba.Capacity() then 1 else 0)
    ensures r.buckets[..|ba.buckets|] == ba.buckets
  {
    if ba.length == ba.Capacity() then
      BucketArray(ba.length, ba.bucketSize, ba.buckets + [newBucket])
    else
      ba
  }

  /** Writes the cell at `index`. */
  function BaSet<T>(ba: BucketArray<T>, index: nat, e: T): (r: BucketArray<T>)
    requires ba.Valid() && index < ba.Capacity()
    ensures r.Valid() && r.length == ba.length && r.bucketSize == ba.bucketSize
    ensures |r.buckets| == |ba.buckets|
    ensures BaGet(r, index) == e
    ensures forall j :: 0 <= j < ba.Capacity() && j != index ==> BaGet(r, j) == BaGet(ba, j)
  {
    Locate(index, ba.bucketSize, |ba.buckets|);
    var b := BucketOf(index, ba.bucketSize);
    var s := SlotOf(index, ba.bucketSize);
    var r := BucketArray(ba.length, ba.bucketSize, ba.buckets[b := ba.buckets[b][s := e]]);
    SetOthers(ba, r, index, e);
    r
  }

  lemma SetOthers<T>(ba: BucketArray<T>, r: BucketArray<T>, index: nat, e: T)
    requires ba.Valid() && index < ba.Capacity()
    requires BucketOf(index, ba.bucketSize) < |ba.buckets|
    requires r == BucketArray(ba.length, ba.bucketSize,
      ba.buckets[BucketOf(index, ba.bucketSize) := ba.buckets[BucketOf(index, ba.bucketSize)][SlotOf(index, ba.bucketSize) := e]])
    ensures r.Valid()
    ensures forall j :: 0 <= j < ba.Capacity() && j != index ==> BaGet(r, j) == BaGet(ba, j)
  {
    assert |r.buckets| == |ba.buckets|;
    assert r.Valid();
    forall j | 0 <= j < ba.Capacity() && j != index
      ensures BaGet(r, j) == BaGet(ba, j)
    {
      Locate(j, ba.bucketSize, |ba.buckets|);
      DistinctSlots(index, j, ba.bucketSize);
      OtherCellKept(ba.buckets, BucketOf(index, ba.bucketSize), SlotOf(index, ba.bucketSize), e,
        BucketOf(j, ba.bucketSize), SlotOf(j, ba.bucketSize));
    }
  }

  lemma OtherCellKept<T>(buckets: seq<seq<T>>, b: nat, s: nat, e: T, b2: nat, s2: nat)
    requires b < |buckets| && s < |buckets[b]| && b2 < |buckets| && s2 < |buckets[b2]|
    requires b != b2 || s != s2
    ensures buckets[b := buckets[b][s := e]][b2][s2] == buckets[b2][s2]
  {
  }

  /** `BA_PUSH`: grow if full, then write at `length` and increment it. */
  function BaPush<T>(ba: BucketArray<T>, e: T, newBucket: seq<T>): (r: BucketArray<T>)
    requires ba.Valid() && |newBucket| == ba.bucketSize
    ensures r.Valid() && r.length == ba.length + 1 && r.bucketSize == ba.bucketSize
  {
    var g := BaMaybeGrow(ba, newBucket);
    var w := BaSet(g, g.length, e);
    BucketArray(w.length + 1, w.bucketSize, w.buckets)
  }

  /** Pushing appends to the live elements and moves none of them: every
      earlier element is still read from the same bucket slot. */
  lemma BaPushAppends<T>(ba: BucketArray<T>, e: T, newBucket: seq<T>)
    requires ba.Valid() && |newBucket| == ba.bucketSize
    ensures forall i :: 0 <= i < ba.length ==> BaGet(BaPush(ba, e, newBucket), i) == BaGet(ba, i)
    ensures Elements(BaPush(ba, e, newBucket)) == Elements(ba) + [e]
  {
    var g := BaMaybeGrow(ba, newBucket);
    var w := BaSet(g, g.length, e);
    var r := BaPush(ba, e, newBucket);
    SameCells(w, r);
    forall i | 0 <= i < ba.length
      ensures BaGet(r, i) == BaGet(ba, i)
    {
      GrowKeeps(ba, newBucket, i);
    }
    var er := Elements(r);
    var eb := Elements(ba);
    forall i | 0 <= i < |er|
      ensures er[i] == (eb + [e])[i]
    {
    }
  }

  /** Growing leaves every existing cell where it was. */
  lemma GrowKeeps<T>(ba: BucketArray<T>, newBucket: seq<T>, i: nat)
    requires ba.Valid() && |newBucket| == ba.bucketSize && i < ba.Capacity()
    ensures BaGet(BaMaybeGrow(ba, newBucket), i) == BaGet(ba, i)
  {
    var g := BaMaybeGrow(ba, newBucket);
    Locate(i, ba.bucketSize, |ba.buckets|);
    assert g.buckets[BucketOf(i, ba.bucketSize)] == g.buckets[..|ba.buckets|][BucketOf(i, ba.bucketSize)];
  }

  /** Two bucket arrays with the same buckets hold the same cells. */
  lemma SameCells<T>(a: BucketArray<T>, b: BucketArray<T>)
    requires a.Valid() && b.Valid() && a.buckets == b.buckets && a.bucketSize == b.bucketSize
    ensures a.Capacity() == b.Capacity()
    ensures forall i :: 0 <= i < a.Capacity() ==> BaGet(a, i) == BaGet(b, i)
  {
  }
}
