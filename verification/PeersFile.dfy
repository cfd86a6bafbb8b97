// What loading a saved address manager rebuilds: one bucket entry after the other,
// the reference counts, flags and counters that the file does not hold
// (addrmanager.go).

module PeersFile {
  import opened AddressBook

  /** The version of the file format that is written and the latest that is read. */
  const SERIALISATION_VERSION := 2

  /** The services of an address from a file of the first version. */
  const SF_NODE_NETWORK: set<nat> := {0}

  /** A saved address; reference count and tried flag follow from the buckets. */
  datatype SavedAddress = SavedAddress(addr: Key, src: Key, services: set<nat>, attempts: nat, lastAttempt: int, lastSuccess: int)

  datatype SavedManager = SavedManager(
    version: nat,
    addresses: seq<SavedAddress>,
    newBuckets: seq<seq<Key>>,
    triedBuckets: seq<seq<Key>>)

  ghost predicate Distinct<T(!new)>(s: seq<T>) {
    forall i, j :: 0 <= i < j < |s| ==> s[i] != s[j]
  }

  ghost function SetOf(s: seq<Key>): set<Key> {
    set k | k in s
  }

  /** A file that holds a book: every address once, and the contents of each bucket,
      in any order for the new buckets. */
  ghost predicate Holds(sam: SavedManager, b: Book) {
    && (forall k :: k in b.entries <==> exists i :: 0 <= i < |sam.addresses| && sam.addresses[i].addr == k)
    && |sam.newBuckets| == |b.new_|
    && (forall i :: 0 <= i < |b.new_| ==> Distinct(sam.newBuckets[i]) && SetOf(sam.newBuckets[i]) == b.new_[i])
    && sam.triedBuckets == b.tried
  }

  /** The addresses with a reference. */
  ghost function Referenced(entries: map<Key, Entry>): set<Key> {
    set k | k in entries && entries[k].refs > 0
  }

  /** One entry of a new bucket is loaded. */
  ghost function LoadNew(s: Book, i: nat, k: Key): Book
    requires i < |s.new_| && k in s.entries
  {
    var e := s.entries[k];
    s.(entries := s.entries[k := Entry(e.refs + 1, e.tried)], new_ := s.new_[i := s.new_[i] + {k}],
       nNew := if e.refs == 0 then s.nNew + 1 else s.nNew)
  }

  /** One entry of a tried list is loaded. */
  ghost function LoadTried(s: Book, i: nat, k: Key): Book
    requires i < |s.tried| && k in s.entries
  {
    s.(entries := s.entries[k := Entry(s.entries[k].refs, true)], tried := s.tried[i := s.tried[i] + [k]], nTried := s.nTried + 1)
  }

  /** A book with the addresses of a file and the contents of some bucket lists: every
      address counts its places in the lists of new buckets, and is tried if it has a
      place in a tried list. */
  ghost predicate Filled(s: Book, known: set<Key>, newLists: seq<seq<Key>>, triedLists: seq<seq<Key>>) {
    && |s.new_| == |newLists| && s.tried == triedLists && s.entries.Keys == known
    && (forall i :: 0 <= i < |newLists| ==> s.new_[i] == SetOf(newLists[i]))
    && forall k :: k in known ==>
         s.entries[k].refs == TriedCount(newLists, k) && (s.entries[k].tried <==> TriedCount(triedLists, k) > 0)
  }

  /** The lists before i, and of list i the first j entries. */
  ghost function Part(lists: seq<seq<Key>>, i: nat, j: nat): (r: seq<seq<Key>>)
    requires i < |lists| ==> j <= |lists[i]|
    ensures |r| == |lists|
  {
    seq(|lists|, x requires 0 <= x < |lists| => if x < i then lists[x] else if x == i then lists[i][..j] else [])
  }

  lemma PartStep(lists: seq<seq<Key>>, i: nat, j: nat)
    requires i < |lists| && j < |lists[i]|
    ensures var part := Part(lists, i, j); Part(lists, i, j + 1) == part[i := part[i] + [lists[i][j]]]
  {
    var part, next := Part(lists, i, j), Part(lists, i, j + 1);
    assert next[i] == part[i] + [lists[i][j]];
  }

  lemma PartNext(lists: seq<seq<Key>>, i: nat)
    requires i < |lists|
    ensures Part(lists, i, |lists[i]|) == Part(lists, i + 1, 0)
  {
    assert lists[i][..|lists[i]|] == lists[i];
  }

  lemma PartAll(lists: seq<seq<Key>>)
    ensures Part(lists, |lists|, 0) == lists
    ensures forall x :: 0 <= x < |lists| ==> Part(lists, 0, 0)[x] == []
  {}

  lemma FillNew(s: Book, known: set<Key>, newLists: seq<seq<Key>>, triedLists: seq<seq<Key>>, i: nat, k: Key)
    requires Filled(s, known, newLists, triedLists) && i < |newLists| && k in known
    ensures Filled(LoadNew(s, i, k), known, newLists[i := newLists[i] + [k]], triedLists)
  {
    hide TriedCount;
    forall m | m in known
      ensures TriedCount(newLists[i := newLists[i] + [k]], m) == TriedCount(newLists, m) + if m == k then 1 else 0
    {
      TriedCountUpdate(newLists, i, newLists[i] + [k], m);
    }
  }

  lemma FillTried(s: Book, known: set<Key>, newLists: seq<seq<Key>>, triedLists: seq<seq<Key>>, i: nat, k: Key)
    requires Filled(s, known, newLists, triedLists) && i < |triedLists| && k in known
    ensures Filled(LoadTried(s, i, k), known, newLists, triedLists[i := triedLists[i] + [k]])
  {
    hide TriedCount;
    forall m | m in known
      ensures TriedCount(triedLists[i := triedLists[i] + [k]], m) == TriedCount(triedLists, m) + if m == k then 1 else 0
    {
      TriedCountUpdate(triedLists, i, triedLists[i] + [k], m);
    }
  }

  lemma ReferencedStep(entries: map<Key, Entry>, k: Key)
    requires k in entries && entries[k].refs >= 0
    ensures |Referenced(entries[k := Entry(entries[k].refs + 1, entries[k].tried)])| ==
            |Referenced(entries)| + if entries[k].refs == 0 then 1 else 0
  {
    var after := entries[k := Entry(entries[k].refs + 1, entries[k].tried)];
    assert Referenced(after) == Referenced(entries) + {k};
    if entries[k].refs > 0 {
      assert Referenced(entries) + {k} == Referenced(entries);
    }
  }

  // ----- Files that are not good -----

  /** The address that a saved text parses to, in its textual form. */
  function Parsed(parses: map<Key, Key>, text: Key): Key {
    if text in parses then parses[text] else text
  }

  /** The texts of the saved addresses are those that parse to themselves. */
  ghost predicate Canonical(addresses: seq<SavedAddress>, parses: map<Key, Key>) {
    forall i :: 0 <= i < |addresses| ==>
      && addresses[i].addr in parses && parses[addresses[i].addr] == addresses[i].addr
      && addresses[i].src in parses && parses[addresses[i].src] == addresses[i].src
  }

  /** The file is of a later version, or an address does not parse. */
  ghost predicate Refused(sam: SavedManager, parses: map<Key, Key>) {
    || sam.version > SERIALISATION_VERSION
    || exists i :: 0 <= i < |sam.addresses| && (sam.addresses[i].addr !in parses || sam.addresses[i].src !in parses)
  }

  ghost function KnownKeys(sam: SavedManager, parses: map<Key, Key>): set<Key> {
    set i | 0 <= i < |sam.addresses| :: Parsed(parses, sam.addresses[i].addr)
  }

  /** The entries of all buckets in a row. */
  ghost function Flat(buckets: seq<seq<Key>>): seq<Key> {
    if buckets == [] then [] else Flat(buckets[..|buckets| - 1]) + buckets[|buckets| - 1]
  }

  /** The entries before the first unknown one. */
  ghost function KnownPrefix(list: seq<Key>, known: set<Key>): (r: seq<Key>)
    ensures r <= list && forall k :: k in r ==> k in known
  {
    if list == [] || list[0] !in known then [] else [list[0]] + KnownPrefix(list[1..], known)
  }

  lemma {:induction false} KnownPrefixIs(list: seq<Key>, known: set<Key>, n: nat)
    requires n <= |list| && forall i :: 0 <= i < n ==> list[i] in known
    requires n < |list| ==> list[n] !in known
    ensures KnownPrefix(list, known) == list[..n]
  {
    if n > 0 {
      KnownPrefixIs(list[1..], known, n - 1);
      assert list[..n] == [list[0]] + list[1..][..n - 1];
    }
  }

  lemma FlatNext(buckets: seq<seq<Key>>, i: nat)
    requires i < |buckets|
    ensures Flat(buckets[..i + 1]) == Flat(buckets[..i]) + buckets[i]
  {
    assert buckets[..i + 1][..i] == buckets[..i];
  }

  lemma {:induction false} FlatPrefix(buckets: seq<seq<Key>>, i: nat)
    requires i <= |buckets|
    ensures Flat(buckets[..i]) <= Flat(buckets)
    decreases |buckets|
  {
    if i < |buckets| {
      var init := buckets[..|buckets| - 1];
      FlatPrefix(init, i);
      assert init[..i] == buckets[..i];
    } else {
      assert buckets[..i] == buckets;
    }
  }

  /** Entry j of bucket i is the first unknown one. */
  lemma StopsAtEntry(buckets: seq<seq<Key>>, known: set<Key>, i: nat, j: nat)
    requires i < |buckets| && j < |buckets[i]| && buckets[i][j] !in known
    requires forall k :: k in Flat(buckets[..i]) + buckets[i][..j] ==> k in known
    ensures KnownPrefix(Flat(buckets), known) == Flat(buckets[..i]) + buckets[i][..j]
    ensures KnownPrefix(Flat(buckets), known) != Flat(buckets)
  {
    var before := Flat(buckets[..i]) + buckets[i][..j];
    FlatNext(buckets, i);
    FlatPrefix(buckets, i + 1);
    var n := |before|;
    assert Flat(buckets[..i + 1])[..n] == before && Flat(buckets[..i + 1])[n] == buckets[i][j];
    assert Flat(buckets)[..n] == before && Flat(buckets)[n] == buckets[i][j];
    forall x | 0 <= x < n ensures Flat(buckets)[x] in known {
      assert before[x] in before;
    }
    KnownPrefixIs(Flat(buckets), known, n);
  }

  lemma StopsNowhere(buckets: seq<seq<Key>>, known: set<Key>)
    requires forall k :: k in Flat(buckets) ==> k in known
    ensures KnownPrefix(Flat(buckets), known) == Flat(buckets)
  {
    KnownPrefixIs(Flat(buckets), known, |Flat(buckets)|);
  }

  /** The entries of the new buckets that are loaded before the load fails. */
  ghost function NewLoaded(sam: SavedManager, parses: map<Key, Key>): seq<Key> {
    if Refused(sam, parses) then [] else KnownPrefix(Flat(sam.newBuckets), KnownKeys(sam, parses))
  }

  /** The entries of the tried lists that are loaded before the load fails. */
  ghost function TriedLoaded(sam: SavedManager, parses: map<Key, Key>): seq<Key> {
    if Refused(sam, parses) || NewLoaded(sam, parses) != Flat(sam.newBuckets) then []
    else KnownPrefix(Flat(sam.triedBuckets), KnownKeys(sam, parses))
  }

  /** Nothing is loaded exactly if the file is refused, has no bucket entries, or starts
      with an unknown one. */
  lemma LoadsNothing(sam: SavedManager, parses: map<Key, Key>)
    ensures var entries := Flat(sam.newBuckets) + Flat(sam.triedBuckets);
            NewLoaded(sam, parses) == [] && TriedLoaded(sam, parses) == [] <==>
            Refused(sam, parses) || entries == [] || entries[0] !in KnownKeys(sam, parses)
  {}

  /** What the new entries loaded so far have counted. */
  ghost predicate CountedNew(s: Book, loaded: seq<Key>) {
    && (forall k :: k in s.entries ==> s.entries[k].refs >= 0)
    && Referenced(s.entries) == SetOf(loaded)
    && s.nNew == |SetOf(loaded)|
  }

  lemma CountNewStep(s: Book, loaded: seq<Key>, i: nat, k: Key)
    requires CountedNew(s, loaded) && i < |s.new_| && k in s.entries
    ensures CountedNew(LoadNew(s, i, k), loaded + [k])
  {
    hide Referenced;
    ReferencedStep(s.entries, k);
    ReferencedKeys(s.entries, k);
    assert SetOf(loaded + [k]) == SetOf(loaded) + {k};
  }

  lemma ReferencedKeys(entries: map<Key, Entry>, k: Key)
    requires k in entries && entries[k].refs >= 0
    ensures Referenced(entries[k := Entry(entries[k].refs + 1, entries[k].tried)]) == Referenced(entries) + {k}
  {}

  // ----- Which files are loaded, and what they give -----

  ghost predicate InSome(lists: seq<seq<Key>>, k: Key) {
    exists i :: 0 <= i < |lists| && k in lists[i]
  }

  /** A file that is loaded without an error: it is not refused, the buckets hold only its
      addresses, and every one of them is either in a new bucket or in a tried list. */
  ghost predicate Loadable(sam: SavedManager, parses: map<Key, Key>) {
    && !Refused(sam, parses)
    && (forall k :: InSome(sam.newBuckets, k) || InSome(sam.triedBuckets, k) ==> k in KnownKeys(sam, parses))
    && (forall k :: k in KnownKeys(sam, parses) ==> (InSome(sam.newBuckets, k) <==> !InSome(sam.triedBuckets, k)))
  }

  lemma {:induction false} FlatHolds(lists: seq<seq<Key>>, k: Key)
    ensures k in Flat(lists) <==> InSome(lists, k)
  {
    if lists != [] {
      var n := |lists| - 1;
      FlatHolds(lists[..n], k);
      assert forall i :: 0 <= i < n ==> lists[..n][i] == lists[i];
    }
  }

  lemma InSomeCount(lists: seq<seq<Key>>, k: Key)
    ensures InSome(lists, k) <==> TriedCount(lists, k) > 0
  {
    hide TriedCount;
    TriedCountZero(lists, k);
  }

  /** Nothing stops the loading of lists exactly if they hold known addresses only. */
  lemma AllKnown(lists: seq<seq<Key>>, known: set<Key>)
    ensures KnownPrefix(Flat(lists), known) == Flat(lists) <==> forall k :: InSome(lists, k) ==> k in known
  {
    hide Flat, KnownPrefix, InSome;
    forall k ensures k in Flat(lists) <==> InSome(lists, k) {
      FlatHolds(lists, k);
    }
    if forall k :: InSome(lists, k) ==> k in known {
      StopsNowhere(lists, known);
    }
  }

  /** The sanity checks that end the loading pass succeed exactly if every address has
      places of one kind. */
  lemma SanityOfFilled(s: Book, known: set<Key>, newLists: seq<seq<Key>>, triedLists: seq<seq<Key>>)
    requires Filled(s, known, newLists, triedLists)
    ensures (forall k :: k in known ==> (InSome(newLists, k) <==> !InSome(triedLists, k))) <==>
            (forall k :: k in known ==> (s.entries[k].refs != 0 || s.entries[k].tried) && !(s.entries[k].refs > 0 && s.entries[k].tried))
  {
    hide TriedCount, InSome;
    forall k | k in known
      ensures (InSome(newLists, k) <==> s.entries[k].refs > 0) && s.entries[k].refs >= 0
      ensures InSome(triedLists, k) <==> s.entries[k].tried
    {
      InSomeCount(newLists, k);
      InSomeCount(triedLists, k);
    }
  }

  // ----- Which loaded books have the invariant -----

  /** The bounds that the loading pass does not check. */
  ghost predicate WithinBounds(newLists: seq<seq<Key>>, triedLists: seq<seq<Key>>) {
    && |newLists| == NEW_BUCKET_COUNT && |triedLists| == TRIED_BUCKET_COUNT
    && (forall i :: 0 <= i < |newLists| ==> Distinct(newLists[i]) && |SetOf(newLists[i])| <= NEW_BUCKET_SIZE + 1)
    && (forall i :: 0 <= i < |triedLists| ==> |triedLists[i]| <= TRIED_BUCKET_SIZE)
    && (forall k :: TriedCount(newLists, k) <= NEW_BUCKETS_PER_ADDRESS)
    && (forall k :: TriedCount(triedLists, k) <= 1)
  }

  /** A list has no repetitions exactly if it holds everything at most once. */
  lemma CountAtMostOne(list: seq<Key>)
    ensures Distinct(list) <==> forall k :: multiset(list)[k] <= 1
    ensures Distinct(list) ==> |SetOf(list)| == |list|
  {
    if Distinct(list) {
      DistinctCounts(list);
    } else {
      var i, j :| 0 <= i < j < |list| && list[i] == list[j];
      Repeated(list, i, j);
    }
  }

  lemma Repeated(list: seq<Key>, i: nat, j: nat)
    requires i < j < |list| && list[i] == list[j]
    ensures multiset(list)[list[i]] > 1
  {
    assert list == list[..j] + list[j..];
    assert list[..j][i] == list[i] && list[j..][0] == list[i];
    assert list[i] in multiset(list[..j]) && list[i] in multiset(list[j..]);
  }

  lemma {:induction false} DistinctCounts(list: seq<Key>)
    requires Distinct(list)
    ensures forall k :: multiset(list)[k] <= 1
    ensures |SetOf(list)| == |list|
  {
    if list != [] {
      var k, rest := list[0], list[1..];
      DistinctCounts(rest);
      assert list == [k] + rest;
      assert SetOf(list) == SetOf(rest) + {k};
      assert k !in rest && k !in multiset(rest);
    }
  }

  /** A bucket counts an address once, however often the file lists it there. */
  lemma {:induction false} PlacesInBuckets(lists: seq<seq<Key>>, buckets: seq<set<Key>>, k: Key)
    requires |buckets| == |lists| && forall i :: 0 <= i < |lists| ==> buckets[i] == SetOf(lists[i])
    ensures NewCount(buckets, k) <= TriedCount(lists, k)
    ensures NewCount(buckets, k) == TriedCount(lists, k) <==> forall i :: 0 <= i < |lists| ==> multiset(lists[i])[k] <= 1
  {
    if lists != [] {
      PlacesInBuckets(lists[1..], buckets[1..], k);
      assert k in lists[0] <==> multiset(lists[0])[k] > 0;
      assert forall i :: 0 < i < |lists| ==> lists[i] == lists[1..][i - 1];
      assert forall i :: 0 <= i < |lists| - 1 ==> lists[1..][i] == lists[i + 1];
    }
  }

  lemma {:induction false} CountInFlat(lists: seq<seq<Key>>, k: Key)
    ensures multiset(Flat(lists))[k] == TriedCount(lists, k)
  {
    if lists != [] {
      var n := |lists| - 1;
      CountInFlat(lists[..n], k);
      CountLast(lists[..n], lists[n], k);
      assert lists == lists[..n] + [lists[n]];
    }
  }

  lemma {:induction false} CountLast(lists: seq<seq<Key>>, last: seq<Key>, k: Key)
    ensures TriedCount(lists + [last], k) == TriedCount(lists, k) + multiset(last)[k]
  {
    if lists == [] {
      assert (lists + [last])[1..] == [];
    } else {
      CountLast(lists[1..], last, k);
      assert (lists + [last])[1..] == lists[1..] + [last];
    }
  }

  /** The addresses of either kind are those with a place in the lists of that kind. */
  lemma KeysOfFilled(s: Book, known: set<Key>, newLists: seq<seq<Key>>, triedLists: seq<seq<Key>>)
    requires Filled(s, known, newLists, triedLists)
    requires forall k :: InSome(newLists, k) || InSome(triedLists, k) ==> k in known
    requires forall k :: k in known ==> (InSome(newLists, k) <==> !InSome(triedLists, k))
    ensures Keys(s.entries, false) == SetOf(Flat(newLists)) && Keys(s.entries, true) == SetOf(Flat(triedLists))
  {
    hide TriedCount, InSome, Flat;
    forall k
      ensures k in SetOf(Flat(newLists)) <==> InSome(newLists, k)
      ensures k in SetOf(Flat(triedLists)) <==> InSome(triedLists, k)
      ensures TriedCount(triedLists, k) > 0 <==> InSome(triedLists, k)
    {
      FlatHolds(newLists, k);
      FlatHolds(triedLists, k);
      InSomeCount(triedLists, k);
    }
  }

  /** A loaded book has the invariant exactly if the file is within its bounds. */
  lemma LoadedIsValid(s: Book, known: set<Key>, newLists: seq<seq<Key>>, triedLists: seq<seq<Key>>)
    requires Filled(s, known, newLists, triedLists)
    requires forall k :: InSome(newLists, k) || InSome(triedLists, k) ==> k in known
    requires forall k :: k in known ==> (InSome(newLists, k) <==> !InSome(triedLists, k))
    requires s.nNew == |SetOf(Flat(newLists))| && s.nTried == |Flat(triedLists)|
    ensures Inv(s, {}) <==> WithinBounds(newLists, triedLists)
  {
    if WithinBounds(newLists, triedLists) {
      BoundsGiveInv(s, known, newLists, triedLists);
    } else if Inv(s, {}) {
      InvGivesBounds(s, known, newLists, triedLists);
      assert false;
    }
  }

  lemma BoundsGiveInv(s: Book, known: set<Key>, newLists: seq<seq<Key>>, triedLists: seq<seq<Key>>)
    requires Filled(s, known, newLists, triedLists) && WithinBounds(newLists, triedLists)
    requires forall k :: InSome(newLists, k) || InSome(triedLists, k) ==> k in known
    requires forall k :: k in known ==> (InSome(newLists, k) <==> !InSome(triedLists, k))
    requires s.nNew == |SetOf(Flat(newLists))| && s.nTried == |Flat(triedLists)|
    ensures Inv(s, {})
  {
    hide TriedCount, NewCount, Flat, Keys;
    KeysOfFilled(s, known, newLists, triedLists);
    forall k ensures multiset(Flat(triedLists))[k] <= 1 {
      CountInFlat(triedLists, k);
    }
    CountAtMostOne(Flat(triedLists));
    forall k | k in known ensures EntryOk(s, {}, k) {
      InSomeCount(newLists, k);
      InSomeCount(triedLists, k);
      forall i | 0 <= i < |newLists| ensures multiset(newLists[i])[k] <= 1 {
        CountAtMostOne(newLists[i]);
      }
      PlacesInBuckets(newLists, s.new_, k);
    }
    assert forall i, k :: 0 <= i < |newLists| && k in newLists[i] ==> InSome(newLists, k);
    assert forall i, k :: 0 <= i < |triedLists| && k in triedLists[i] ==> InSome(triedLists, k);
    assert BucketsOk(s) && CountersOk(s);
  }

  lemma InvGivesBounds(s: Book, known: set<Key>, newLists: seq<seq<Key>>, triedLists: seq<seq<Key>>)
    requires Filled(s, known, newLists, triedLists) && Inv(s, {})
    requires forall k :: InSome(newLists, k) || InSome(triedLists, k) ==> k in known
    ensures WithinBounds(newLists, triedLists)
  {
    hide TriedCount, NewCount, Keys;
    forall k
      ensures TriedCount(newLists, k) <= NEW_BUCKETS_PER_ADDRESS && TriedCount(triedLists, k) <= 1
      ensures NewCount(s.new_, k) == TriedCount(newLists, k)
    {
      InSomeCount(newLists, k);
      InSomeCount(triedLists, k);
      PlacesInBuckets(newLists, s.new_, k);
      if k in known {
        assert EntryOk(s, {}, k);
      }
    }
    forall i | 0 <= i < |newLists| ensures Distinct(newLists[i]) && |SetOf(newLists[i])| <= NEW_BUCKET_SIZE + 1 {
      forall k ensures multiset(newLists[i])[k] <= 1 {
        PlacesInBuckets(newLists, s.new_, k);
      }
      CountAtMostOne(newLists[i]);
      assert s.new_[i] == SetOf(newLists[i]);
    }
  }

  /** A file that holds a book with the invariant gives that book. */
  lemma HeldIsLoaded(s: Book, b: Book, sam: SavedManager)
    requires Holds(sam, b) && Inv(b, {}) && Filled(s, b.entries.Keys, sam.newBuckets, sam.triedBuckets)
    requires s.nNew == |SetOf(Flat(sam.newBuckets))| && s.nTried == |Flat(sam.triedBuckets)|
    ensures s == b
  {
    hide TriedCount, NewCount, Flat, Keys;
    HeldIsLoadable(b, sam);
    assert s.new_ == b.new_;
    forall k | k in b.entries ensures s.entries[k] == b.entries[k] {
      assert EntryOk(b, {}, k);
      forall i | 0 <= i < |sam.newBuckets| ensures multiset(sam.newBuckets[i])[k] <= 1 {
        CountAtMostOne(sam.newBuckets[i]);
      }
      PlacesInBuckets(sam.newBuckets, b.new_, k);
    }
    assert s.entries == b.entries;
    BoundsGiveInv(s, b.entries.Keys, sam.newBuckets, sam.triedBuckets);
  }

  lemma HeldIsLoadable(b: Book, sam: SavedManager)
    requires Holds(sam, b) && Inv(b, {})
    ensures WithinBounds(sam.newBuckets, sam.triedBuckets)
    ensures forall k :: InSome(sam.newBuckets, k) || InSome(sam.triedBuckets, k) ==> k in b.entries
    ensures forall k :: k in b.entries ==> (InSome(sam.newBuckets, k) <==> !InSome(sam.triedBuckets, k))
  {
    hide TriedCount, NewCount, Flat, Keys;
    var n, t := sam.newBuckets, sam.triedBuckets;
    forall k | InSome(n, k) ensures k in b.entries && exists i :: 0 <= i < |b.new_| && k in b.new_[i] {
      var i :| 0 <= i < |n| && k in n[i];
      assert k in SetOf(n[i]) && k in b.new_[i];
    }
    forall k
      ensures TriedCount(n, k) == NewCount(b.new_, k)
      ensures InSome(n, k) <==> TriedCount(n, k) > 0
      ensures InSome(t, k) <==> TriedCount(t, k) > 0
      ensures TriedCount(n, k) <= NEW_BUCKETS_PER_ADDRESS && TriedCount(t, k) <= 1
      ensures k in b.entries ==> (InSome(n, k) <==> !InSome(t, k))
    {
      forall i | 0 <= i < |n| ensures multiset(n[i])[k] <= 1 {
        CountAtMostOne(n[i]);
      }
      PlacesInBuckets(n, b.new_, k);
      InSomeCount(n, k);
      InSomeCount(t, k);
      if k in b.entries {
        assert EntryOk(b, {}, k);
      }
    }
  }
}
