// The structure that the address manager maintains: which addresses are in which
// buckets, and the reference counts, flags and counters that must agree with that
// (addrmanager.go).

module AddressBook {
  import opened Arithmetic

  /** An address in its textual form, host and port. */
  datatype Key = Key(text: string)

  /** The reference count of new buckets and the tried flag of a known address. */
  datatype Entry = Entry(refs: int, tried: bool)

  datatype Book = Book(
    entries: map<Key, Entry>,
    new_: seq<set<Key>>,
    tried: seq<seq<Key>>,
    nNew: int,
    nTried: int)

  const NEW_BUCKET_COUNT := 1024
  const TRIED_BUCKET_COUNT := 64
  const NEW_BUCKET_SIZE := 64
  const TRIED_BUCKET_SIZE := 256
  const NEW_BUCKETS_PER_ADDRESS := 8

  /** The number of new buckets that hold an address. */
  function NewCount(buckets: seq<set<Key>>, k: Key): nat {
    if buckets == [] then 0 else (if k in buckets[0] then 1 else 0) + NewCount(buckets[1..], k)
  }

  /** The number of places in some lists, such as the tried lists, that hold an address. */
  function TriedCount(lists: seq<seq<Key>>, k: Key): nat {
    if lists == [] then 0 else multiset(lists[0])[k] + TriedCount(lists[1..], k)
  }

  ghost function Keys(entries: map<Key, Entry>, tried: bool): set<Key> {
    set k | k in entries && entries[k].tried == tried
  }

  /** What is true of one known address.  An address that is being moved may be in no
      bucket for a moment. */
  ghost predicate EntryOk(b: Book, moving: set<Key>, k: Key)
    requires k in b.entries
  {
    var e := b.entries[k];
    && e.refs == NewCount(b.new_, k) <= NEW_BUCKETS_PER_ADDRESS
    && TriedCount(b.tried, k) == (if e.tried then 1 else 0)
    && (if e.tried then e.refs == 0 else e.refs > 0 || k in moving)
  }

  /** The counters are the exact numbers of addresses that are not tried and tried. */
  ghost predicate CountersOk(b: Book) {
    b.nNew == |Keys(b.entries, false)| && b.nTried == |Keys(b.entries, true)|
  }

  /** The bounds on the buckets: a new bucket is only emptied when it holds more than
      its size, so it may exceed it by one. */
  ghost predicate BucketsOk(b: Book) {
    && |b.new_| == NEW_BUCKET_COUNT && |b.tried| == TRIED_BUCKET_COUNT
    && (forall i :: 0 <= i < |b.new_| ==> |b.new_[i]| <= NEW_BUCKET_SIZE + 1 && b.new_[i] <= b.entries.Keys)
    && (forall i :: 0 <= i < |b.tried| ==> |b.tried[i]| <= TRIED_BUCKET_SIZE)
    && (forall i, k :: 0 <= i < |b.tried| && k in b.tried[i] ==> k in b.entries)
  }

  /** The invariant, with a set of addresses that are being moved. */
  ghost predicate Inv(b: Book, moving: set<Key>) {
    && BucketsOk(b) && CountersOk(b)
    && forall k :: k in b.entries ==> EntryOk(b, moving, k)
  }

  // ----- Counting -----

  lemma {:induction false} NewCountUpdate(buckets: seq<set<Key>>, i: nat, s: set<Key>, k: Key)
    requires i < |buckets|
    ensures NewCount(buckets[i := s], k) ==
            NewCount(buckets, k) - (if k in buckets[i] then 1 else 0) + if k in s then 1 else 0
  {
    if i > 0 {
      NewCountUpdate(buckets[1..], i - 1, s, k);
      assert buckets[i := s][1..] == buckets[1..][i - 1 := s];
    } else {
      assert buckets[i := s][1..] == buckets[1..];
    }
  }

  lemma {:induction false} NewCountZero(buckets: seq<set<Key>>, k: Key)
    ensures NewCount(buckets, k) == 0 <==> forall i :: 0 <= i < |buckets| ==> k !in buckets[i]
  {
    if buckets != [] {
      NewCountZero(buckets[1..], k);
      assert forall i :: 0 < i < |buckets| ==> buckets[i] == buckets[1..][i - 1];
    }
  }

  lemma {:induction false} TriedCountUpdate(lists: seq<seq<Key>>, i: nat, list: seq<Key>, k: Key)
    requires i < |lists|
    ensures TriedCount(lists[i := list], k) == TriedCount(lists, k) - multiset(lists[i])[k] + multiset(list)[k]
    ensures TriedCount(lists, k) >= multiset(lists[i])[k]
  {
    if i > 0 {
      TriedCountUpdate(lists[1..], i - 1, list, k);
      assert lists[i := list][1..] == lists[1..][i - 1 := list];
    } else {
      assert lists[i := list][1..] == lists[1..];
    }
  }

  /** Changing one entry changes the sets of keys by that key only. */
  lemma KeysUpdate(entries: map<Key, Entry>, k: Key, e: Entry, tried: bool)
    ensures |Keys(entries[k := e], tried)| == |Keys(entries, tried)|
            - (if k in entries && entries[k].tried == tried then 1 else 0) + if e.tried == tried then 1 else 0
  {
    hide Keys;
    KeysUpdateSet(entries, k, e, tried);
    var s := Keys(entries, tried);
    if k in s {
      assert s + {k} == s;
    } else {
      assert s - {k} == s;
    }
  }

  lemma KeysUpdateSet(entries: map<Key, Entry>, k: Key, e: Entry, tried: bool)
    ensures k in Keys(entries, tried) <==> k in entries && entries[k].tried == tried
    ensures Keys(entries[k := e], tried) ==
            if e.tried == tried then Keys(entries, tried) + {k} else Keys(entries, tried) - {k}
  {}

  lemma KeysRemove(entries: map<Key, Entry>, k: Key, tried: bool)
    ensures |Keys(entries - {k}, tried)| == |Keys(entries, tried)| - if k in entries && entries[k].tried == tried then 1 else 0
  {
    assert Keys(entries - {k}, tried) == Keys(entries, tried) - {k};
  }

  /** The index holds exactly the addresses that the two counters count. */
  lemma CountersSumToIndex(b: Book, moving: set<Key>)
    requires Inv(b, moving)
    ensures b.nNew + b.nTried == |b.entries|
  {
    assert Keys(b.entries, false) + Keys(b.entries, true) == b.entries.Keys;
    assert Keys(b.entries, false) !! Keys(b.entries, true);
  }

  // ----- The changes of the operations, and that they keep the invariant -----

  /** A new address enters the index, in no bucket yet. */
  ghost function WithEntry(b: Book, k: Key): Book {
    b.(entries := b.entries[k := Entry(0, false)], nNew := b.nNew + 1)
  }

  lemma WithEntryInv(b: Book, k: Key)
    requires Inv(b, {}) && k !in b.entries
    ensures Inv(WithEntry(b, k), {k})
  {
    hide Keys, NewCount, TriedCount;
    NewCountZero(b.new_, k);
    TriedCountZero(b.tried, k);
    KeysUpdate(b.entries, k, Entry(0, false), false);
    KeysUpdate(b.entries, k, Entry(0, false), true);
    var r := WithEntry(b, k);
    forall m | m in r.entries ensures EntryOk(r, {k}, m) {
      if m != k { assert EntryOk(b, {}, m); }
    }
  }

  lemma {:induction false} TriedCountZero(lists: seq<seq<Key>>, k: Key)
    ensures TriedCount(lists, k) == 0 <==> forall i :: 0 <= i < |lists| ==> k !in lists[i]
  {
    if lists != [] {
      TriedCountZero(lists[1..], k);
      assert forall i :: 0 < i < |lists| ==> lists[i] == lists[1..][i - 1];
      assert multiset(lists[0])[k] == 0 <==> k !in lists[0];
    }
  }

  /** An address is put into a new bucket. */
  ghost function InBucket(b: Book, i: nat, k: Key): Book
    requires i < |b.new_| && k in b.entries
  {
    b.(entries := b.entries[k := b.entries[k].(refs := b.entries[k].refs + 1)], new_ := b.new_[i := b.new_[i] + {k}])
  }

  lemma InBucketInv(b: Book, i: nat, k: Key, moving: set<Key>)
    requires Inv(b, moving) && moving <= {k} && i < |b.new_| && k in b.entries && k !in b.new_[i]
    requires !b.entries[k].tried && b.entries[k].refs < NEW_BUCKETS_PER_ADDRESS && |b.new_[i]| <= NEW_BUCKET_SIZE
    ensures Inv(InBucket(b, i, k), {})
  {
    hide Keys, NewCount, TriedCount;
    var r := InBucket(b, i, k);
    KeysUpdate(b.entries, k, r.entries[k], false);
    KeysUpdate(b.entries, k, r.entries[k], true);
    forall m | m in r.entries ensures EntryOk(r, {}, m) {
      assert EntryOk(b, moving, m);
      NewCountUpdate(b.new_, i, r.new_[i], m);
    }
  }

  /** An address is dropped from a new bucket, and from the index with its last one. */
  ghost function OutOfBucket(b: Book, i: nat, k: Key): Book
    requires i < |b.new_|
  {
    if k !in b.entries then b else
    var buckets, refs := b.new_[i := b.new_[i] - {k}], b.entries[k].refs - 1;
    if refs == 0 then b.(entries := b.entries - {k}, new_ := buckets, nNew := b.nNew - 1)
    else b.(entries := b.entries[k := b.entries[k].(refs := refs)], new_ := buckets)
  }

  lemma OutOfBucketInv(b: Book, i: nat, k: Key, moving: set<Key>)
    requires Inv(b, moving) && i < |b.new_| && k in b.new_[i] && k !in moving
    ensures k in b.entries && !b.entries[k].tried
    ensures Inv(OutOfBucket(b, i, k), moving)
  {
    hide Keys, NewCount, TriedCount;
    var r := OutOfBucket(b, i, k);
    assert EntryOk(b, moving, k);
    NewCountZero(b.new_, k);
    NewCountUpdate(b.new_, i, r.new_[i], k);
    NewCountZero(r.new_, k);
    TriedCountZero(b.tried, k);
    KeysRemove(b.entries, k, false);
    KeysRemove(b.entries, k, true);
    KeysUpdate(b.entries, k, Entry(b.entries[k].refs - 1, false), false);
    KeysUpdate(b.entries, k, Entry(b.entries[k].refs - 1, false), true);
    forall m | m in r.entries ensures EntryOk(r, moving, m) {
      assert EntryOk(b, moving, m);
      NewCountUpdate(b.new_, i, r.new_[i], m);
    }
  }

  /** An address is dropped from a new bucket on its way to a tried list. */
  ghost function Leaving(b: Book, i: nat, k: Key): Book
    requires i < |b.new_| && k in b.entries
  {
    b.(entries := b.entries[k := b.entries[k].(refs := b.entries[k].refs - 1)], new_ := b.new_[i := b.new_[i] - {k}])
  }

  lemma LeavingInv(b: Book, i: nat, k: Key)
    requires Inv(b, {k}) && i < |b.new_| && k in b.new_[i] && k in b.entries && !b.entries[k].tried
    ensures Inv(Leaving(b, i, k), {k})
  {
    hide Keys, NewCount, TriedCount;
    var r := Leaving(b, i, k);
    KeysUpdate(b.entries, k, r.entries[k], false);
    KeysUpdate(b.entries, k, r.entries[k], true);
    forall m | m in r.entries ensures EntryOk(r, {k}, m) {
      assert EntryOk(b, {k}, m);
      NewCountUpdate(b.new_, i, r.new_[i], m);
    }
  }

  /** An address in no bucket enters a tried list. */
  ghost function Promoted(b: Book, k: Key, bucket: nat): Book
    requires bucket < |b.tried|
  {
    b.(entries := b.entries[k := Entry(0, true)], tried := b.tried[bucket := b.tried[bucket] + [k]],
       nNew := b.nNew - 1, nTried := b.nTried + 1)
  }

  lemma PromotedInv(b: Book, k: Key, bucket: nat)
    requires Inv(b, {k}) && k in b.entries && b.entries[k] == Entry(0, false)
    requires bucket < |b.tried| && |b.tried[bucket]| < TRIED_BUCKET_SIZE
    ensures Inv(Promoted(b, k, bucket), {})
  {
    hide Keys, NewCount, TriedCount;
    var r := Promoted(b, k, bucket);
    KeysUpdate(b.entries, k, Entry(0, true), false);
    KeysUpdate(b.entries, k, Entry(0, true), true);
    forall m | m in r.entries ensures EntryOk(r, {}, m) {
      assert EntryOk(b, {k}, m);
      TriedCountUpdate(b.tried, bucket, r.tried[bucket], m);
    }
  }

  /** An address in no bucket takes the place of another one in a full tried list, and
      that one goes back to a new bucket. */
  ghost function Replaced(b: Book, k: Key, bucket: nat, place: nat, newBucket: nat): Book
    requires bucket < |b.tried| && place < |b.tried[bucket]| && newBucket < |b.new_|
  {
    var evicted := b.tried[bucket][place];
    b.(entries := b.entries[k := Entry(0, true)][evicted := Entry(1, false)],
       tried := b.tried[bucket := b.tried[bucket][place := k]],
       new_ := b.new_[newBucket := b.new_[newBucket] + {evicted}])
  }

  lemma ReplacedInv(b: Book, k: Key, bucket: nat, place: nat, newBucket: nat)
    requires Inv(b, {k}) && k in b.entries && b.entries[k] == Entry(0, false)
    requires bucket < |b.tried| && place < |b.tried[bucket]|
    requires newBucket < |b.new_| && |b.new_[newBucket]| <= NEW_BUCKET_SIZE
    ensures b.tried[bucket][place] in b.entries && b.entries[b.tried[bucket][place]] == Entry(0, true)
    ensures b.tried[bucket][place] !in b.new_[newBucket]
    ensures Inv(Replaced(b, k, bucket, place, newBucket), {})
  {
    hide Keys, NewCount, TriedCount;
    var evicted, r := b.tried[bucket][place], Replaced(b, k, bucket, place, newBucket);
    TriedAt(b, {k}, bucket, place);
    NewCountZero(b.new_, evicted);
    ReplacedCounters(b, k, evicted);
    ReplaceInList(b.tried[bucket], place, k);
    forall m | m in r.entries ensures EntryOk(r, {}, m) {
      assert EntryOk(b, {k}, m);
      TriedCountUpdate(b.tried, bucket, r.tried[bucket], m);
      NewCountUpdate(b.new_, newBucket, r.new_[newBucket], m);
    }
  }

  /** What is in a tried list is tried. */
  lemma TriedAt(b: Book, moving: set<Key>, bucket: nat, place: nat)
    requires Inv(b, moving) && bucket < |b.tried| && place < |b.tried[bucket]|
    ensures b.tried[bucket][place] in b.entries && b.entries[b.tried[bucket][place]] == Entry(0, true)
  {
    hide Keys, NewCount, TriedCount;
    var m := b.tried[bucket][place];
    assert m in b.tried[bucket];
    assert EntryOk(b, moving, m);
    TriedCountZero(b.tried, m);
  }

  lemma ReplacedCounters(b: Book, k: Key, evicted: Key)
    requires k in b.entries && b.entries[k] == Entry(0, false)
    requires evicted in b.entries && b.entries[evicted] == Entry(0, true)
    ensures var entries := b.entries[k := Entry(0, true)][evicted := Entry(1, false)];
            |Keys(entries, false)| == |Keys(b.entries, false)| && |Keys(entries, true)| == |Keys(b.entries, true)|
  {
    var e := b.entries[k := Entry(0, true)];
    KeysUpdate(b.entries, k, Entry(0, true), false);
    KeysUpdate(b.entries, k, Entry(0, true), true);
    KeysUpdate(e, evicted, Entry(1, false), false);
    KeysUpdate(e, evicted, Entry(1, false), true);
  }

  lemma ReplaceInList(list: seq<Key>, place: nat, k: Key)
    requires place < |list|
    ensures multiset(list[place := k]) == multiset(list) - multiset{list[place]} + multiset{k}
  {
    assert list == list[..place] + [list[place]] + list[place + 1..];
    assert list[place := k] == list[..place] + [k] + list[place + 1..];
  }

  // ----- What the operations rely on -----

  /** Facts that make the draw in updateAddress well defined and the branch of Good for
      an address that "wasn't in a bucket" dead: an address that is not tried is in a
      new bucket. */
  lemma NotTriedIsInBucket(b: Book, k: Key)
    requires Inv(b, {}) && k in b.entries && !b.entries[k].tried
    ensures 0 < b.entries[k].refs <= NEW_BUCKETS_PER_ADDRESS
    ensures exists i :: 0 <= i < |b.new_| && k in b.new_[i]
  {
    hide Keys, NewCount, TriedCount;
    assert EntryOk(b, {}, k);
    NewCountZero(b.new_, k);
  }

  /** An address in a new bucket is in no tried list, and with one reference in no other
      new bucket. */
  lemma OnlyBucket(b: Book, i: nat, k: Key, moving: set<Key>)
    requires Inv(b, moving) && i < |b.new_| && k in b.new_[i] && k in b.entries
    ensures forall j :: 0 <= j < |b.tried| ==> k !in b.tried[j]
    ensures b.entries[k].refs == 1 ==> forall j :: 0 <= j < |b.new_| && j != i ==> k !in b.new_[j]
  {
    hide Keys, NewCount, TriedCount;
    assert EntryOk(b, moving, k);
    NewCountZero(b.new_, k);
    TriedCountZero(b.tried, k);
    var without := b.new_[i := b.new_[i] - {k}];
    NewCountUpdate(b.new_, i, b.new_[i] - {k}, k);
    NewCountZero(without, k);
    assert forall j :: 0 <= j < |b.new_| && j != i ==> without[j] == b.new_[j];
  }

  /** Nothing is both new and tried. */
  lemma BucketsDisjoint(b: Book, moving: set<Key>, k: Key, i: nat, j: nat)
    requires Inv(b, moving) && i < |b.new_| && j < |b.tried|
    ensures !(k in b.new_[i] && k in b.tried[j])
  {
    if k in b.new_[i] && k in b.tried[j] {
      assert EntryOk(b, moving, k);
      NewCountZero(b.new_, k);
      TriedCountZero(b.tried, k);
      assert false;
    }
  }

  lemma OutOfBucketNone(b: Book, i: nat)
    requires i < |b.new_|
    ensures OutOfBucketAll(b, i, []) == b
  {}

  lemma OutOfBucketAllStep(b: Book, i: nat, ks: seq<Key>, k: Key)
    requires i < |b.new_|
    ensures OutOfBucketAll(b, i, ks + [k]) == OutOfBucket(OutOfBucketAll(b, i, ks), i, k)
  {
    assert (ks + [k])[..|ks|] == ks;
  }

  /** Several addresses are dropped from a new bucket. */
  ghost function OutOfBucketAll(b: Book, i: nat, ks: seq<Key>): (r: Book)
    requires i < |b.new_|
    ensures |r.new_| == |b.new_|
  {
    if ks == [] then b else OutOfBucket(OutOfBucketAll(b, i, ks[..|ks| - 1]), i, ks[|ks| - 1])
  }

  /** An address has left the first n new buckets and keeps the given count. */
  ghost function Cleared(b: Book, k: Key, n: nat, refs: int): Book
    requires k in b.entries
  {
    b.(entries := b.entries[k := Entry(refs, b.entries[k].tried)],
       new_ := seq(|b.new_|, i requires 0 <= i < |b.new_| => if i < n then b.new_[i] - {k} else b.new_[i]))
  }

  /** The first new bucket that holds an address. */
  function FirstBucket(buckets: seq<set<Key>>, k: Key): (i: nat)
    ensures i <= |buckets|
    ensures i < |buckets| ==> k in buckets[i]
    ensures forall j :: 0 <= j < i ==> k !in buckets[j]
  {
    if buckets == [] || k in buckets[0] then 0
    else
      var i := FirstBucket(buckets[1..], k);
      assert forall j :: 0 < j < i + 1 ==> buckets[j] == buckets[1..][j - 1];
      i + 1
  }

  /** An address that has left every new bucket has no references. */
  lemma ClearedHasNoRefs(b: Book, k: Key, refs: int)
    requires k in b.entries && Inv(Cleared(b, k, |b.new_|, refs), {k})
    ensures refs == 0
  {
    hide NewCount;
    var r := Cleared(b, k, |b.new_|, refs);
    assert EntryOk(r, {k}, k);
    NewCountZero(r.new_, k);
  }

  lemma ClearedStart(b: Book, k: Key)
    requires k in b.entries && Inv(b, {})
    ensures Cleared(b, k, 0, b.entries[k].refs) == b && Inv(b, {k})
  {
    forall m | m in b.entries ensures EntryOk(b, {k}, m) {
      assert EntryOk(b, {}, m);
    }
    assert b.entries[k := b.entries[k]] == b.entries;
  }

  lemma ClearedStep(b: Book, k: Key, n: nat, refs: int)
    requires k in b.entries && n < |b.new_|
    ensures k in b.new_[n] ==> Leaving(Cleared(b, k, n, refs), n, k) == Cleared(b, k, n + 1, refs - 1)
    ensures k !in b.new_[n] ==> Cleared(b, k, n, refs) == Cleared(b, k, n + 1, refs)
  {
    if k !in b.new_[n] {
      assert b.new_[n] - {k} == b.new_[n];
    }
  }

  // ----- What the changes do to the buckets -----

  /** The buckets determine everything else: which addresses are known, their reference
      counts and flags, and the counters. */
  lemma BucketsDetermineBook(a: Book, b: Book)
    requires Inv(a, {}) && Inv(b, {}) && a.new_ == b.new_ && a.tried == b.tried
    ensures a == b
  {
    hide NewCount, TriedCount, Keys;
    KnownIffInBucket(a);
    KnownIffInBucket(b);
    assert a.entries.Keys == b.entries.Keys;
    forall k | k in a.entries ensures a.entries[k] == b.entries[k] {
      assert EntryOk(a, {}, k) && EntryOk(b, {}, k);
    }
    assert a.entries == b.entries;
  }

  lemma KnownIffInBucket(b: Book)
    requires Inv(b, {})
    ensures forall k :: k in b.entries <==> NewCount(b.new_, k) > 0 || TriedCount(b.tried, k) > 0
  {
    hide NewCount, TriedCount, Keys;
    forall k ensures k in b.entries <==> NewCount(b.new_, k) > 0 || TriedCount(b.tried, k) > 0 {
      NewCountZero(b.new_, k);
      TriedCountZero(b.tried, k);
      if k in b.entries {
        assert EntryOk(b, {}, k);
      }
    }
  }

  /** The bounds in numbers. */
  lemma Bounds(b: Book, moving: set<Key>)
    requires Inv(b, moving)
    ensures |b.new_| == 1024 && |b.tried| == 64
    ensures forall i :: 0 <= i < |b.new_| ==> |b.new_[i]| <= 65
    ensures forall i :: 0 <= i < |b.tried| ==> |b.tried[i]| <= 256
    ensures forall k :: k in b.entries ==> 0 <= b.entries[k].refs <= 8
  {
    hide NewCount, TriedCount, Keys;
    forall k | k in b.entries ensures 0 <= b.entries[k].refs <= 8 {
      assert EntryOk(b, moving, k);
    }
  }

  /** Making room in a bucket leaves the other buckets and the tried lists alone. */
  lemma {:induction false} DroppedElsewhere(b: Book, i: nat, ks: seq<Key>)
    requires i < |b.new_|
    ensures var r := OutOfBucketAll(b, i, ks);
            r.tried == b.tried && forall j :: 0 <= j < |b.new_| && j != i ==> r.new_[j] == b.new_[j]
  {
    if ks != [] {
      DroppedElsewhere(b, i, ks[..|ks| - 1]);
    }
  }

  /** One draw in 2 * refs is a multiple of it. */
  lemma OneMultiple(d: nat, m: nat) returns (x: nat)
    requires m > 0
    ensures d <= x < d + m
    ensures forall y :: d <= y < d + m ==> (y % m == 0 <==> y == x)
  {
    var q, r := d / m, d % m;
    assert d == m * q + r;
    x := if r == 0 then d else d + (m - r);
    forall y | d <= y < d + m ensures y % m == 0 <==> y == x {
      var s := y - m * q;
      if s < m {
        DivUnique(y, m, q, s);
      } else {
        assert m * (q + 1) == m * q + m;
        DivUnique(y, m, q + 1, s - m);
      }
    }
  }
}
